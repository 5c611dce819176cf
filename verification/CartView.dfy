/** The cart as it is shown: lines grouped by seller in the order sellers first appear, with their amounts. */
module CartView {
  import opened Prelude
  import VariantRules

  /** One line with what the view reads of its variant and product. */
  datatype Row = Row(id: nat, variant: nat, seller: nat, quantity: nat, price: nat, limit: Option<nat>,
                     productLimit: Option<nat>)

  datatype Item = Item(id: nat, variant: nat, quantity: nat, price: nat, limit: Option<nat>)

  datatype Group = Group(seller: nat, items: seq<Item>, amount: nat)

  datatype View = View(groups: seq<Group>, total: nat, count: nat)

  /** The limit for `variantLimit`, the product's own standing in. */
  function PurchaseLimitOf(row: Row, variantLimit: Option<nat>): Option<nat> {
    VariantRules.ResolvePurchaseLimit(row.productLimit, variantLimit)
  }

  /** A line of the view; the limit shown is asked for without the variant's. */
  function Shown(row: Row): Item { Item(row.id, row.variant, row.quantity, row.price, PurchaseLimitOf(row, None)) }

  // ----------------------------------------------------------- specification

  /** The sellers of the first `n` rows, each where it first appears. */
  function Sellers(rows: seq<Row>, n: nat): seq<nat>
    requires n <= |rows|
  {
    if n == 0 then []
    else Sellers(rows, n - 1) + (if rows[n - 1].seller in Sellers(rows, n - 1) then [] else [rows[n - 1].seller])
  }

  /** A seller's lines among the first `n` rows, in order. */
  function ItemsOf(rows: seq<Row>, n: nat, seller: nat): seq<Item>
    requires n <= |rows|
  {
    if n == 0 then [] else ItemsOf(rows, n - 1, seller) + (if rows[n - 1].seller == seller then [Shown(rows[n - 1])]
        else [])
  }

  function Amount(items: seq<Item>): nat {
    if items == [] then 0 else Amount(items[..|items| - 1]) + items[|items| - 1].price * items[|items| - 1].quantity
  }

  function Total(groups: seq<Group>): nat {
    if groups == [] then 0 else Total(groups[..|groups| - 1]) + groups[|groups| - 1].amount
  }

  function GroupOf(rows: seq<Row>, seller: nat): Group {
    var items := ItemsOf(rows, |rows|, seller);
    Group(seller, items, Amount(items))
  }

  function Groups(rows: seq<Row>, sellers: seq<nat>): (groups: seq<Group>)
    ensures |groups| == |sellers|
  {
    seq(|sellers|, i requires 0 <= i < |sellers| => GroupOf(rows, sellers[i]))
  }

  function Present(rows: seq<Row>): View {
    var groups := Groups(rows, Sellers(rows, |rows|));
    View(groups, Total(groups), |rows|)
  }

  // ------------------------------------------------------------------- loops

  method SumAmounts(items: seq<Item>) returns (sum: nat)
    ensures sum == Amount(items)
  {
    sum := 0;
    for i := 0 to |items|
      invariant sum == Amount(items[..i])
    {
      assert items[..i + 1][..i] == items[..i];
      sum := sum + items[i].price * items[i].quantity;
    }
    assert items[..|items|] == items;
  }

  /** The buckets hold the items so far of exactly the sellers met so far. */
  ghost predicate Bucketed(rows: seq<Row>, n: nat, buckets: map<nat, seq<Item>>)
    requires n <= |rows|
  {
    && (forall s :: s in buckets <==> s in Sellers(rows, n))
    && (forall s {:trigger buckets[s]} :: s in buckets ==> buckets[s] == ItemsOf(rows, n, s))
  }

  lemma {:induction false} BucketedNext(rows: seq<Row>, n: nat, buckets: map<nat, seq<Item>>)
    requires n < |rows| && Bucketed(rows, n, buckets)
    ensures var seller := rows[n].seller;
            Bucketed(rows, n + 1,
                     buckets[seller := (if seller in buckets then buckets[seller] else []) + [Shown(rows[n])]])
  {
    NoneYet(rows, n, rows[n].seller);
  }

  /** The buckets the rows fall into, and the sellers in the order their bucket was made. */
  method Bucket(rows: seq<Row>) returns (buckets: map<nat, seq<Item>>, order: seq<nat>)
    ensures order == Sellers(rows, |rows|) && Bucketed(rows, |rows|, buckets)
  {
    buckets, order := map[], [];
    for i := 0 to |rows|
      invariant order == Sellers(rows, i) && Bucketed(rows, i, buckets)
    {
      var seller := rows[i].seller;
      BucketedNext(rows, i, buckets);
      var bucket := if seller in buckets then buckets[seller] else [];
      if seller !in buckets { order := order + [seller]; }
      buckets := buckets[seller := bucket + [Shown(rows[i])]];
    }
  }

  lemma {:induction false} GroupsNext(rows: seq<Row>, order: seq<nat>, n: nat)
    requires n < |order|
    ensures Groups(rows, order[..n + 1]) == Groups(rows, order[..n]) + [GroupOf(rows, order[n])]
    ensures Total(Groups(rows, order[..n + 1])) == Total(Groups(rows, order[..n])) + GroupOf(rows, order[n]).amount
  {
    var longer := Groups(rows, order[..n + 1]);
    assert longer == Groups(rows, order[..n]) + [GroupOf(rows, order[n])];
    assert longer[..n] == Groups(rows, order[..n]);
  }

  lemma {:induction false} BucketOf(rows: seq<Row>, buckets: map<nat, seq<Item>>, seller: nat)
    requires Bucketed(rows, |rows|, buckets) && seller in Sellers(rows, |rows|)
    ensures seller in buckets && GroupOf(rows, seller) == Group(seller, buckets[seller], Amount(buckets[seller]))
  {
  }

  method PresentLines(rows: seq<Row>) returns (view: View)
    ensures view == Present(rows)
  {
    var buckets, order := Bucket(rows);
    var groups: seq<Group> := [];
    var total := 0;
    for i := 0 to |order|
      invariant groups == Groups(rows, order[..i]) && total == Total(groups)
    {
      GroupsNext(rows, order, i);
      var seller := order[i];
      BucketOf(rows, buckets, seller);
      var items := buckets[seller];
      var amount := SumAmounts(items);
      groups := groups + [Group(seller, items, amount)];
      total := total + amount;
    }
    assert order[..|order|] == order;
    view := View(groups, total, |rows|);
  }

  // ------------------------------------------------------------------ lemmas

  lemma {:induction false} SellersAre(rows: seq<Row>, n: nat, s: nat)
    requires n <= |rows|
    ensures s in Sellers(rows, n) <==> exists i :: 0 <= i < n && rows[i].seller == s
  {
    if n > 0 {
      SellersAre(rows, n - 1, s);
      if rows[n - 1].seller == s && s !in Sellers(rows, n - 1) { assert s in Sellers(rows, n); }
    }
  }

  lemma {:induction false} SellersDistinct(rows: seq<Row>, n: nat)
    requires n <= |rows|
    ensures Distinct(Sellers(rows, n))
  {
    if n > 0 { SellersDistinct(rows, n - 1); }
  }

  lemma {:induction false} NoneYet(rows: seq<Row>, n: nat, s: nat)
    requires n <= |rows|
    ensures s !in Sellers(rows, n) ==> ItemsOf(rows, n, s) == []
  {
    if n > 0 { NoneYet(rows, n - 1, s); }
  }

  lemma {:induction false} ItemMembers(rows: seq<Row>, n: nat, s: nat, item: Item)
    requires n <= |rows|
    ensures item in ItemsOf(rows, n, s) <==> exists i :: 0 <= i < n && rows[i].seller == s && Shown(rows[i]) == item
  {
    if n > 0 {
      ItemMembers(rows, n - 1, s, item);
      if rows[n - 1].seller == s && Shown(rows[n - 1]) == item { assert item in ItemsOf(rows, n, s); }
    }
  }

  lemma {:induction false} ItemsDistinct(rows: seq<Row>, n: nat, s: nat)
    requires n <= |rows| && forall j, k :: 0 <= j < k < |rows| ==> rows[j].id != rows[k].id
    ensures Distinct(ItemsOf(rows, n, s))
  {
    if n > 0 {
      ItemsDistinct(rows, n - 1, s);
      ItemMembers(rows, n - 1, s, Shown(rows[n - 1]));
    }
  }

  /** The line stands once in the group of its seller, and nowhere else: sellers have one group each. */
  lemma {:induction false} EachLineOnce(rows: seq<Row>, i: nat)
    requires i < |rows| && forall j, k :: 0 <= j < k < |rows| ==> rows[j].id != rows[k].id
    ensures var groups := Present(rows).groups;
            exists g :: 0 <= g < |groups| && groups[g].seller == rows[i].seller
                        && Shown(rows[i]) in groups[g].items && Distinct(groups[g].items)
                        && forall h :: 0 <= h < |groups| && h != g ==>
                                         groups[h].seller != groups[g].seller && Shown(rows[i]) !in groups[h].items
  {
    var sellers, groups := Sellers(rows, |rows|), Present(rows).groups;
    SellersAre(rows, |rows|, rows[i].seller);
    var g := IndexOf(sellers, rows[i].seller);
    ItemMembers(rows, |rows|, sellers[g], Shown(rows[i]));
    ItemsDistinct(rows, |rows|, sellers[g]);
    GroupIs(rows, g);
    forall h | 0 <= h < |groups| && h != g
      ensures groups[h].seller != groups[g].seller && Shown(rows[i]) !in groups[h].items
    {
      GroupsDiffer(rows, Min(g, h), Max(g, h));
      GroupIs(rows, h);
      NotElsewhere(rows, i, sellers[h]);
    }
  }

  lemma {:induction false} GroupIs(rows: seq<Row>, g: nat)
    requires g < |Sellers(rows, |rows|)|
    ensures g < |Present(rows).groups|
    ensures Present(rows).groups[g].seller == Sellers(rows, |rows|)[g]
    ensures Present(rows).groups[g].items == ItemsOf(rows, |rows|, Sellers(rows, |rows|)[g])
  {
  }

  /** Sellers have one group each. */
  lemma {:induction false} GroupsDiffer(rows: seq<Row>, g: nat, h: nat)
    requires g < h < |Sellers(rows, |rows|)|
    ensures |Present(rows).groups| == |Sellers(rows, |rows|)|
    ensures Present(rows).groups[g].seller != Present(rows).groups[h].seller
  {
    SellersDistinct(rows, |rows|);
    GroupIs(rows, g);
    GroupIs(rows, h);
  }

  lemma {:induction false} NotElsewhere(rows: seq<Row>, i: nat, s: nat)
    requires i < |rows| && (forall j, k :: 0 <= j < k < |rows| ==> rows[j].id != rows[k].id) && s != rows[i].seller
    ensures Shown(rows[i]) !in ItemsOf(rows, |rows|, s)
  {
    ItemMembers(rows, |rows|, s, Shown(rows[i]));
    forall j | 0 <= j < |rows| && rows[j].seller == s ensures Shown(rows[j]) != Shown(rows[i]) {
      assert rows[Min(i, j)].id != rows[Max(i, j)].id;
    }
  }

  function Worth(row: Row): nat { row.price * row.quantity }

  /** The amount of all the rows, line by line. */
  function LineSum(rows: seq<Row>, n: nat): nat
    requires n <= |rows|
  {
    if n == 0 then 0 else LineSum(rows, n - 1) + Worth(rows[n - 1])
  }

  /** The amounts of the given sellers over the first `n` rows. */
  function SellerSum(rows: seq<Row>, n: nat, sellers: seq<nat>): nat
    requires n <= |rows|
  {
    if sellers == [] then 0
    else SellerSum(rows, n, sellers[..|sellers| - 1]) + Amount(ItemsOf(rows, n, sellers[|sellers| - 1]))
  }

  lemma {:induction false} ItemsNext(rows: seq<Row>, n: nat, s: nat)
    requires n < |rows|
    ensures Amount(ItemsOf(rows, n + 1, s)) == Amount(ItemsOf(rows, n, s)) + (if rows[n].seller == s then Worth(rows[n])
                else 0)
  {
    var before, after := ItemsOf(rows, n, s), ItemsOf(rows, n + 1, s);
    if rows[n].seller == s {
      assert after[..|after| - 1] == before;
    } else {
      assert after == before;
    }
  }

  lemma {:induction false} InFront(s: seq<nat>, x: nat)
    requires s != [] && Distinct(s)
    ensures x in s <==> x in s[..|s| - 1] || x == s[|s| - 1]
    ensures !(x in s[..|s| - 1] && x == s[|s| - 1])
  {
    assert s == s[..|s| - 1] + [s[|s| - 1]];
  }

  /** One more row adds its amount to its seller, if it is among them, and to no other. */
  lemma {:induction false} SellerSumNext(rows: seq<Row>, n: nat, sellers: seq<nat>)
    requires n < |rows| && Distinct(sellers)
    ensures SellerSum(rows, n + 1, sellers) == SellerSum(rows, n, sellers) + (if rows[n].seller in sellers
                then Worth(rows[n]) else 0)
  {
    if sellers != [] {
      var last := |sellers| - 1;
      var front := sellers[..last];
      SellerSumNext(rows, n, front);
      ItemsNext(rows, n, sellers[last]);
      InFront(sellers, rows[n].seller);
    }
  }

  lemma {:induction false} SellerSumLonger(rows: seq<Row>, n: nat, sellers: seq<nat>, s: nat)
    requires n <= |rows|
    ensures SellerSum(rows, n, sellers + [s]) == SellerSum(rows, n, sellers) + Amount(ItemsOf(rows, n, s))
  {
    assert (sellers + [s])[..|sellers|] == sellers;
  }

  /** Over the first `n` rows, seller by seller comes to the same as line by line. */
  ghost predicate SumsAgree(rows: seq<Row>, n: nat)
    requires n <= |rows|
  {
    SellerSum(rows, n, Sellers(rows, n)) == LineSum(rows, n)
  }

  lemma {:induction false} SumNext(rows: seq<Row>, n: nat)
    requires n < |rows| && SumsAgree(rows, n)
    ensures SumsAgree(rows, n + 1)
  {
    NextSeller(rows, n, Sellers(rows, n));
    assert LineSum(rows, n + 1) == LineSum(rows, n) + Worth(rows[n]);
  }

  lemma {:induction false} SumNone(rows: seq<Row>)
    ensures SumsAgree(rows, 0)
  {
    assert Sellers(rows, 0) == [];
  }

  lemma {:induction false} SumBySeller(rows: seq<Row>, n: nat)
    requires n <= |rows|
    ensures SumsAgree(rows, n)
  {
    SumNone(rows);
    for i := 0 to n
      invariant SumsAgree(rows, i)
    {
      SumNext(rows, i);
    }
  }

  /** The next row's amount joins the sum, in an old group or in a new one. */
  lemma {:induction false} NextSeller(rows: seq<Row>, n: nat, before: seq<nat>)
    requires n < |rows| && before == Sellers(rows, n)
    ensures SellerSum(rows, n + 1, Sellers(rows, n + 1)) == SellerSum(rows, n, before) + Worth(rows[n])
  {
    var s := rows[n].seller;
    SellersDistinct(rows, n);
    SellerSumNext(rows, n, before);
    if s in before {
      assert Sellers(rows, n + 1) == before;
    } else {
      assert Sellers(rows, n + 1) == before + [s];
      SellerSumLonger(rows, n + 1, before, s);
      NoneYet(rows, n, s);
      ItemsNext(rows, n, s);
    }
  }

  lemma {:induction false} TotalIsSum(rows: seq<Row>, sellers: seq<nat>)
    ensures Total(Groups(rows, sellers)) == SellerSum(rows, |rows|, sellers)
  {
    if sellers != [] {
      var last := |sellers| - 1;
      TotalIsSum(rows, sellers[..last]);
      assert Groups(rows, sellers)[..last] == Groups(rows, sellers[..last]);
    }
  }

  /** Grouping conserves: the grand total is the sum of price times quantity over all lines. */
  lemma {:induction false} TotalConserved(rows: seq<Row>)
    ensures Present(rows).total == LineSum(rows, |rows|)
  {
    TotalIsSum(rows, Sellers(rows, |rows|));
    SumBySeller(rows, |rows|);
  }

  /** The limit shown is the one that applies exactly when the variant has none of its own, or the product's. */
  lemma {:induction false} ShownLimitIff(row: Row)
    ensures Shown(row).limit == PurchaseLimitOf(row, row.limit) <==> row.limit.None? || row.limit == row.productLimit
  {
  }

  /**
   * A shown line in the row's columns: its own id, variant, quantity and price, and the product's limit. The view
   * counts
   * the lines, its total is theirs together, and a group's amount is that of its lines.
   */
  lemma {:induction false} ShownExact(rows: seq<Row>, i: nat)
    requires i < |rows|
    ensures Present(rows).count == |rows|
    ensures exists g, x :: 0 <= g < |Present(rows).groups| && 0 <= x < |Present(rows).groups[g].items|
                           && Present(rows).groups[g].seller == rows[i].seller
                           && Present(rows).groups[g].items[x] == Item(rows[i].id, rows[i].variant, rows[i].quantity,
                                                                       rows[i].price, rows[i].productLimit)
  {
    var sellers := Sellers(rows, |rows|);
    SellersAre(rows, |rows|, rows[i].seller);
    var g := IndexOf(sellers, rows[i].seller);
    ItemMembers(rows, |rows|, sellers[g], Shown(rows[i]));
    GroupIs(rows, g);
    var x := IndexOf(ItemsOf(rows, |rows|, sellers[g]), Shown(rows[i]));
    assert Present(rows).groups[g].items[x] == Shown(rows[i]);
  }

  /** What a group shows: only lines of its seller, in the order of the rows, and their amount. */
  lemma {:induction false} GroupExact(rows: seq<Row>, g: nat)
    requires g < |Present(rows).groups|
    ensures var group := Present(rows).groups[g];
            && group.amount == Amount(group.items)
            && forall x :: 0 <= x < |group.items| ==>
                 exists i :: 0 <= i < |rows| && rows[i].seller == group.seller
                             && group.items[x] == Item(rows[i].id, rows[i].variant, rows[i].quantity, rows[i].price,
                                                       rows[i].productLimit)
  {
    GroupIs(rows, g);
    var group := Present(rows).groups[g];
    assert group == GroupOf(rows, Sellers(rows, |rows|)[g]);
    forall x | 0 <= x < |group.items|
      ensures exists i :: 0 <= i < |rows| && rows[i].seller == group.seller
                          && group.items[x] == Item(rows[i].id, rows[i].variant, rows[i].quantity, rows[i].price,
                                                    rows[i].productLimit)
    {
      ItemMembers(rows, |rows|, group.seller, group.items[x]);
      var i :| 0 <= i < |rows| && rows[i].seller == group.seller && Shown(rows[i]) == group.items[x];
    }
  }

  /** Where a seller first appears. */
  ghost predicate FirstOf(rows: seq<Row>, s: nat, i: nat) {
    i < |rows| && rows[i].seller == s && forall j :: 0 <= j < i ==> rows[j].seller != s
  }

  lemma {:induction false} SellersInOrder(rows: seq<Row>, n: nat, g: nat, h: nat)
    requires n <= |rows| && g < h < |Sellers(rows, n)|
    ensures exists i :: 0 <= i < n && rows[i].seller == Sellers(rows, n)[g]
                        && forall j :: 0 <= j <= i ==> rows[j].seller != Sellers(rows, n)[h]
  {
    var before := Sellers(rows, n - 1);
    if h < |before| {
      SellersInOrder(rows, n - 1, g, h);
    } else {
      SellersAre(rows, n - 1, before[g]);
      SellersAre(rows, n - 1, rows[n - 1].seller);
      var i :| 0 <= i < n - 1 && rows[i].seller == before[g];
      assert forall j :: 0 <= j <= i ==> rows[j].seller != rows[n - 1].seller;
    }
  }

  /** Groups come in the order their sellers first appear among the rows. */
  lemma {:induction false} GroupsInOrder(rows: seq<Row>, g: nat, h: nat)
    requires g < h < |Present(rows).groups|
    ensures exists i :: 0 <= i < |rows| && rows[i].seller == Present(rows).groups[g].seller
                        && forall j :: 0 <= j <= i ==> rows[j].seller != Present(rows).groups[h].seller
  {
    SellersInOrder(rows, |rows|, g, h);
    GroupIs(rows, g);
    GroupIs(rows, h);
  }

  /** And lines of one seller in the order of the rows. */
  lemma {:induction false} ItemsInOrder(rows: seq<Row>, n: nat, s: nat, i: nat, j: nat) returns (x: nat, y: nat)
    requires i < j < n <= |rows| && rows[i].seller == s && rows[j].seller == s
    ensures x < y < |ItemsOf(rows, n, s)| && ItemsOf(rows, n, s)[x] == Shown(rows[i])
    ensures ItemsOf(rows, n, s)[y] == Shown(rows[j])
  {
    if j < n - 1 {
      x, y := ItemsInOrder(rows, n - 1, s, i, j);
    } else {
      ItemMembers(rows, n - 1, s, Shown(rows[i]));
      x, y := IndexOf(ItemsOf(rows, n - 1, s), Shown(rows[i])), |ItemsOf(rows, n - 1, s)|;
    }
  }

  /** A line of a variant that is limited to two, of a product without a limit, is shown without one. */
  lemma {:induction false} ShownLimitDiffers()
    ensures var row := Row(4, 9, 1, 1, 1000, Some(2), None);
            Present([row]).groups == [Group(1, [Item(4, 9, 1, 1000, None)], 1000)]
            && PurchaseLimitOf(row, row.limit) == Some(2)
  {
    var row := Row(4, 9, 1, 1, 1000, Some(2), None);
    assert Sellers([row], 1) == [1];
    assert ItemsOf([row], 1, 1) == [Shown(row)];
    assert Amount([Shown(row)][..0]) == 0;
    assert Amount([Shown(row)]) == 1000;
    assert Groups([row], [1]) == [GroupOf([row], 1)];
  }
}
