/** The cart: capped merging, one line per variant, and lines grouped by seller. */
module Cart {
  import opened Prelude
  import VariantRules

  /** One variant as the cart reads it. */
  datatype Offer = Offer(
    seller: nat, price: nat, stock: nat, limit: Option<nat>, productLimit: Option<nat>,
    live: bool, isActive: bool, productLive: bool, productActive: bool)

  type Catalogue = map<nat, Offer>

  datatype Line = Line(id: nat, variant: nat, seller: nat, quantity: nat, priceAtAdded: nat)

  /** The lines of one cart and the supply of line ids. */
  datatype State = State(lines: seq<Line>, next: nat)

  datatype Item = Item(variant: nat, quantity: nat)

  datatype CartError = Unavailable | PurchaseLimit(max: nat) | StockExceeded(stock: nat) | CartFull | NotFound

  /** What the shop allows: units of one variant, and lines of one cart. */
  datatype Limits = Limits(itemMax: nat, lineMax: nat)

  const MAX_SAFE_INTEGER := 9007199254740991

  // ------------------------------------------------------------------ rules

  predicate Sellable(c: Catalogue, v: nat) {
    v in c && c[v].live && c[v].isActive && c[v].productLive && c[v].productActive
  }

  function LimitOf(o: Offer): Option<nat> { VariantRules.ResolvePurchaseLimit(o.productLimit, o.limit) }

  function Cap(l: Limits, o: Offer): nat {
    var limit := LimitOf(o).GetOr(MAX_SAFE_INTEGER);
    Min(l.itemMax, Min(o.stock, limit))
  }

  /** Where the variant's line stands, if it has one. */
  function Held(lines: seq<Line>, v: nat): (at: Option<nat>)
    ensures at.Some? ==> at.value < |lines| && lines[at.value].variant == v
    ensures at.None? ==> forall i :: 0 <= i < |lines| ==> lines[i].variant != v
  {
    if lines == [] then None
    else if lines[|lines| - 1].variant == v then Some(|lines| - 1)
    else Held(lines[..|lines| - 1], v)
  }

  function QuantityOf(lines: seq<Line>, v: nat): nat {
    match Held(lines, v) case None => 0 case Some(i) => lines[i].quantity
  }

  /** Whether a quantity of a variant may be ordered. */
  function Orderable(c: Catalogue, v: nat, quantity: nat): Option<CartError> {
    if !Sellable(c, v) then Some(Unavailable)
    else
      var limit := LimitOf(c[v]);
      if limit.Some? && quantity > limit.value then Some(PurchaseLimit(limit.value))
      else if quantity > c[v].stock then Some(StockExceeded(c[v].stock))
      else None
  }

  // ----------------------------------------------------------------- writes

  function Appended(s: State, c: Catalogue, v: nat, quantity: nat): State
    requires v in c
  {
    State(s.lines + [Line(s.next, v, c[v].seller, quantity, c[v].price)], s.next + 1)
  }

  /** Adding sums with what is held; an existing line keeps its price baseline. */
  function Add(l: Limits, s: State, c: Catalogue, item: Item): Result<State, CartError> {
    var wanted := QuantityOf(s.lines, item.variant) + item.quantity;
    match Orderable(c, item.variant, wanted)
    case Some(error) => Err(error)
    case None =>
      match Held(s.lines, item.variant)
      case Some(i) => Ok(s.(lines := s.lines[i := s.lines[i].(quantity := wanted)]))
      case None => if |s.lines| >= l.lineMax then Err(CartFull) else Ok(Appended(s, c, item.variant, wanted))
  }

  function LineAt(lines: seq<Line>, id: nat): (at: Option<nat>)
    ensures at.Some? ==> at.value < |lines| && lines[at.value].id == id
    ensures at.None? ==> forall i :: 0 <= i < |lines| ==> lines[i].id != id
  {
    if lines == [] then None
    else if lines[|lines| - 1].id == id then Some(|lines| - 1)
    else LineAt(lines[..|lines| - 1], id)
  }

  /** Setting a quantity: an assignment, not a sum. */
  function Update(s: State, c: Catalogue, id: nat, quantity: nat): Result<State, CartError> {
    match LineAt(s.lines, id)
    case None => Err(NotFound)
    case Some(i) =>
      match Orderable(c, s.lines[i].variant, quantity)
      case Some(error) => Err(error)
      case None => Ok(s.(lines := s.lines[i := s.lines[i].(quantity := quantity)]))
  }

  function Remove(s: State, ids: set<nat>): State { s.(lines := Filter((x: Line) => x.id !in ids, s.lines)) }

  /** The item can be merged at all. */
  predicate Mergeable(l: Limits, c: Catalogue, v: nat) { Sellable(c, v) && Cap(l, c[v]) >= 1 }

  /** The cart has no room for the item's line, which ends the merge. */
  predicate Stops(l: Limits, s: State, c: Catalogue, item: Item) {
    Mergeable(l, c, item.variant) && item.quantity >= 1 && Held(s.lines, item.variant).None? && |s.lines| >= l.lineMax
  }

  /** One item of a merge: never refused, only skipped, capped or, in a full cart, the end. */
  function MergeOne(l: Limits, s: State, c: Catalogue, item: Item): State {
    if !Sellable(c, item.variant) then s
    else
      var quantity := Min(QuantityOf(s.lines, item.variant) + item.quantity, Cap(l, c[item.variant]));
      if quantity < 1 then s
      else match Held(s.lines, item.variant)
        case Some(i) => s.(lines := s.lines[i := s.lines[i].(quantity := quantity)])
        case None => if |s.lines| >= l.lineMax then s else Appended(s, c, item.variant, quantity)
  }

  /** A merge under way: the cart, whether it was found full, and how many items were taken. */
  datatype Progress = Progress(state: State, full: bool, taken: nat)

  function MergeUpTo(l: Limits, s: State, c: Catalogue, items: seq<Item>, n: nat): (p: Progress)
    requires n <= |items|
    ensures p.taken <= n
  {
    if n == 0 then Progress(s, false, 0)
    else
      var p := MergeUpTo(l, s, c, items, n - 1);
      if p.full then p
      else if Stops(l, p.state, c, items[n - 1]) then p.(full := true)
      else Progress(MergeOne(l, p.state, c, items[n - 1]), false, n)
  }

  function Merge(l: Limits, s: State, c: Catalogue, items: seq<Item>): State {
    MergeUpTo(l, s, c, items, |items|).state
  }

  // --------------------------------------------------------------- invariant

  ghost predicate OnePerVariant(lines: seq<Line>) {
    forall i, j :: 0 <= i < j < |lines| ==> lines[i].variant != lines[j].variant && lines[i].id != lines[j].id
  }

  ghost predicate Inv(l: Limits, s: State) {
    && OnePerVariant(s.lines) && |s.lines| <= l.lineMax
    && (forall i :: 0 <= i < |s.lines| ==> s.lines[i].id < s.next && s.lines[i].quantity >= 1)
  }

  lemma {:induction false} HeldAt(lines: seq<Line>, i: nat)
    requires OnePerVariant(lines) && i < |lines|
    ensures Held(lines, lines[i].variant) == Some(i)
  {
    assert forall j :: 0 <= j < |lines| && j != i ==> lines[Min(i, j)].variant != lines[Max(i, j)].variant;
  }

  lemma {:induction false} QuantitySet(lines: seq<Line>, i: nat, quantity: nat, v: nat)
    requires OnePerVariant(lines) && i < |lines|
    ensures var after := lines[i := lines[i].(quantity := quantity)];
            && OnePerVariant(after)
            && QuantityOf(after, v) == if v == lines[i].variant then quantity else QuantityOf(lines, v)
  {
    var after := lines[i := lines[i].(quantity := quantity)];
    assert OnePerVariant(after);
    HeldAt(lines, i);
    HeldAt(after, i);
    if Held(lines, v).Some? { HeldAt(after, Held(lines, v).value); }
  }

  lemma {:induction false} QuantityAppended(lines: seq<Line>, line: Line, v: nat)
    requires OnePerVariant(lines) && Held(lines, line.variant).None?
    requires forall i :: 0 <= i < |lines| ==> lines[i].id != line.id
    ensures OnePerVariant(lines + [line])
    ensures QuantityOf(lines + [line], v) == if v == line.variant then line.quantity else QuantityOf(lines, v)
  {
    var after := lines + [line];
    assert OnePerVariant(after);
    HeldAt(after, |lines|);
    if Held(lines, v).Some? {
      HeldAt(lines, Held(lines, v).value);
      HeldAt(after, Held(lines, v).value);
    }
  }

  // ------------------------------------------------------------------ merging

  /** Units of a variant asked for by the first `n` items. */
  function Wanted(items: seq<Item>, n: nat, v: nat): nat
    requires n <= |items|
  {
    if n == 0 then 0 else Wanted(items, n - 1, v) + (if items[n - 1].variant == v then items[n - 1].quantity else 0)
  }

  /** What a merge of `wanted` more units of a variant must leave. */
  function Merged(l: Limits, c: Catalogue, v: nat, held: nat, wanted: nat): nat {
    if wanted > 0 && Mergeable(l, c, v) then Min(held + wanted, Cap(l, c[v])) else held
  }

  /** Lines only gain: the old ones keep everything but their quantity, new ones take today's price. */
  ghost predicate Extends(s: State, after: State, c: Catalogue) {
    && |s.lines| <= |after.lines| && s.next <= after.next
    && (forall i :: 0 <= i < |s.lines| ==> after.lines[i] == s.lines[i].(quantity := after.lines[i].quantity))
    && (forall i :: |s.lines| <= i < |after.lines| ==> NewLine(c, after.lines[i]))
  }

  ghost predicate NewLine(c: Catalogue, line: Line) {
    line.variant in c && line.seller == c[line.variant].seller && line.priceAtAdded == c[line.variant].price
  }

  /** An old line at another quantity. */
  lemma {:induction false} SetMeans(l: Limits, s: State, c: Catalogue, i: nat, quantity: nat, v: nat)
    requires Inv(l, s) && i < |s.lines| && quantity >= 1
    ensures var after := s.(lines := s.lines[i := s.lines[i].(quantity := quantity)]);
            && Inv(l, after) && Extends(s, after, c)
            && QuantityOf(after.lines, v) == if v == s.lines[i].variant then quantity else QuantityOf(s.lines, v)
  {
    QuantitySet(s.lines, i, quantity, v);
  }

  /** A new line at today's price. */
  lemma {:induction false} AppendedMeans(l: Limits, s: State, c: Catalogue, variant: nat, quantity: nat, v: nat)
    requires Inv(l, s) && variant in c && Held(s.lines, variant).None? && |s.lines| < l.lineMax && quantity >= 1
    ensures var after := Appended(s, c, variant, quantity);
            && Inv(l, after) && Extends(s, after, c)
            && QuantityOf(after.lines, v) == if v == variant then quantity else QuantityOf(s.lines, v)
  {
    QuantityAppended(s.lines, Line(s.next, variant, c[variant].seller, quantity, c[variant].price), v);
  }

  lemma {:induction false} MergeOneSkips(l: Limits, s: State, c: Catalogue, item: Item)
    requires !Mergeable(l, c, item.variant)
    ensures MergeOne(l, s, c, item) == s
  {
  }

  lemma {:induction false} MergeOneIs(l: Limits, s: State, c: Catalogue, item: Item)
    requires item.quantity >= 1 && !Stops(l, s, c, item) && Mergeable(l, c, item.variant)
    ensures var quantity := Min(QuantityOf(s.lines, item.variant) + item.quantity, Cap(l, c[item.variant]));
            && quantity >= 1
            && MergeOne(l, s, c, item) == (match Held(s.lines, item.variant)
                                           case Some(i) => s.(lines := s.lines[i := s.lines[i].(quantity := quantity)])
                                           case None => Appended(s, c, item.variant, quantity))
  {
  }

  lemma {:induction false} MergeOneTakes(l: Limits, s: State, c: Catalogue, item: Item, v: nat)
    requires Inv(l, s) && item.quantity >= 1 && !Stops(l, s, c, item) && Mergeable(l, c, item.variant)
    ensures var after := MergeOne(l, s, c, item);
            var quantity := Min(QuantityOf(s.lines, item.variant) + item.quantity, Cap(l, c[item.variant]));
            && Inv(l, after) && Extends(s, after, c)
            && QuantityOf(after.lines, v) == if v == item.variant then quantity else QuantityOf(s.lines, v)
  {
    MergeOneIs(l, s, c, item);
    var quantity := Min(QuantityOf(s.lines, item.variant) + item.quantity, Cap(l, c[item.variant]));
    match Held(s.lines, item.variant)
    case Some(i) => SetMeans(l, s, c, i, quantity, v);
    case None => AppendedMeans(l, s, c, item.variant, quantity, v);
  }

  lemma {:induction false} MergeOneMeans(l: Limits, s: State, c: Catalogue, item: Item, v: nat)
    requires Inv(l, s) && item.quantity >= 1 && !Stops(l, s, c, item)
    ensures var after := MergeOne(l, s, c, item);
            && Inv(l, after) && Extends(s, after, c)
            && QuantityOf(after.lines, v) == Merged(l, c, v, QuantityOf(s.lines, v), if v == item.variant
                then item.quantity else 0)
  {
    if Mergeable(l, c, item.variant) { MergeOneTakes(l, s, c, item, v); } else { MergeOneSkips(l, s, c, item); }
  }

  lemma {:induction false} ExtendsChain(a: State, b: State, d: State, c: Catalogue)
    requires Extends(a, b, c) && Extends(b, d, c)
    ensures Extends(a, d, c)
  {
    forall i | |a.lines| <= i < |d.lines| ensures NewLine(c, d.lines[i]) {
      if i < |b.lines| { assert NewLine(c, b.lines[i]); }
    }
  }

  /** Capping step by step is capping the sum. */
  lemma {:induction false} MergedTwice(l: Limits, c: Catalogue, v: nat, held: nat, first: nat, second: nat)
    ensures Merged(l, c, v, Merged(l, c, v, held, first), second) == Merged(l, c, v, held, first + second)
  {
  }

  /**
   * A merge that has seen `n` items: what it took is in the cart, capped, and if it is full the next item had no room.
   */
  ghost predicate MergedSoFar(l: Limits, s: State, c: Catalogue, items: seq<Item>, n: nat, v: nat, p: Progress)
    requires n <= |items|
  {
    && p.taken <= n && (!p.full ==> p.taken == n)
    && Inv(l, p.state) && Extends(s, p.state, c)
    && QuantityOf(p.state.lines, v) == Merged(l, c, v, QuantityOf(s.lines, v), Wanted(items, p.taken, v))
    && (p.full ==> p.taken < n && Stops(l, p.state, c, items[p.taken]))
  }

  lemma {:induction false} MergedNext(l: Limits, s: State, c: Catalogue, items: seq<Item>, n: nat, v: nat, p: Progress)
    requires n < |items| && MergedSoFar(l, s, c, items, n, v, p) && !p.full && items[n].quantity >= 1
    requires !Stops(l, p.state, c, items[n])
    ensures MergedSoFar(l, s, c, items, n + 1, v, Progress(MergeOne(l, p.state, c, items[n]), false, n + 1))
  {
    MergeOneMeans(l, p.state, c, items[n], v);
    ExtendsChain(s, p.state, MergeOne(l, p.state, c, items[n]), c);
    MergedTwice(l, c, v, QuantityOf(s.lines, v), Wanted(items, n, v), if items[n].variant == v then items[n].quantity
        else 0);
  }

  lemma {:induction false} MergeUpToMeans(l: Limits, s: State, c: Catalogue, items: seq<Item>, n: nat, v: nat)
    requires Inv(l, s) && n <= |items| && forall i :: 0 <= i < |items| ==> items[i].quantity >= 1
    ensures MergedSoFar(l, s, c, items, n, v, MergeUpTo(l, s, c, items, n))
  {
    if n > 0 {
      MergeUpToMeans(l, s, c, items, n - 1, v);
      var p := MergeUpTo(l, s, c, items, n - 1);
      if !p.full && !Stops(l, p.state, c, items[n - 1]) { MergedNext(l, s, c, items, n - 1, v, p); }
    }
  }

  /**
   * Merging any list, repeats included: each variant that can be sold ends at what was held plus all that was
   * asked for, capped, up to the item that finds the cart full; there is one line per variant, no more lines
   * than allowed, and no existing line changes anything but its quantity.
   */
  lemma {:induction false} MergeMeans(l: Limits, s: State, c: Catalogue, items: seq<Item>, v: nat)
    requires Inv(l, s) && forall i :: 0 <= i < |items| ==> items[i].quantity >= 1
    ensures var p := MergeUpTo(l, s, c, items, |items|);
            && Merge(l, s, c, items) == p.state
            && Inv(l, p.state) && Extends(s, p.state, c)
            && QuantityOf(p.state.lines, v) == Merged(l, c, v, QuantityOf(s.lines, v), Wanted(items, p.taken, v))
            && (p.taken < |items| ==> Stops(l, p.state, c, items[p.taken]))
  {
    MergeUpToMeans(l, s, c, items, |items|, v);
  }

  // ------------------------------------------------------------------- runs

  datatype Op = AddOp(item: Item) | UpdateOp(id: nat,
                                             quantity: nat) | RemoveOp(ids: set<nat>) | MergeOp(items: seq<Item>)

  /** What the request schema asks of a quantity. */
  ghost predicate Asked(l: Limits, op: Op) {
    match op
    case AddOp(item) => 1 <= item.quantity <= l.itemMax
    case UpdateOp(_, quantity) => 1 <= quantity <= l.itemMax
    case RemoveOp(_) => true
    case MergeOp(items) => forall i :: 0 <= i < |items| ==> 1 <= items[i].quantity <= l.itemMax
  }

  function Step(l: Limits, s: State, c: Catalogue, op: Op): State {
    match op
    case AddOp(item) => (match Add(l, s, c, item) case Ok(after) => after case Err(_) => s)
    case UpdateOp(id, quantity) => (match Update(s, c, id, quantity) case Ok(after) => after case Err(_) => s)
    case RemoveOp(ids) => Remove(s, ids)
    case MergeOp(items) => Merge(l, s, c, items)
  }

  /** The catalogue may change between operations. */
  function Run(l: Limits, s: State, ops: seq<(Catalogue, Op)>): State
    decreases |ops|
  {
    if ops == [] then s else Run(l, Step(l, s, ops[0].0, ops[0].1), ops[1..])
  }

  lemma {:induction false} FilteredLines(keep: Line -> bool, lines: seq<Line>, bound: nat)
    requires OnePerVariant(lines) && forall i :: 0 <= i < |lines| ==> lines[i].id < bound && lines[i].quantity >= 1
    ensures var kept := Filter(keep, lines);
            && |kept| <= |lines| && OnePerVariant(kept)
            && forall i :: 0 <= i < |kept| ==> kept[i].id < bound && kept[i].quantity >= 1
  {
    if lines != [] {
      var rest := Filter(keep, lines[1..]);
      FilteredLines(keep, lines[1..], bound);
      forall j | 0 <= j < |rest| ensures rest[j].variant != lines[0].variant && rest[j].id != lines[0].id {
        assert rest[j] in rest;
        FilterMembers(keep, lines[1..], rest[j]);
        var k :| 0 <= k < |lines[1..]| && lines[1..][k] == rest[j];
        assert lines[k + 1] == rest[j];
      }
    }
  }

  lemma {:induction false} StepKeeps(l: Limits, s: State, c: Catalogue, op: Op)
    requires Inv(l, s) && Asked(l, op)
    ensures Inv(l, Step(l, s, c, op))
  {
    match op
    case AddOp(item) =>
      if Add(l, s, c, item).Ok? { AddMeans(l, s, c, item, 0); }
    case UpdateOp(id, quantity) => if LineAt(s.lines, id).Some? {
      QuantitySet(s.lines, LineAt(s.lines, id).value, quantity, 0);
    }
    case RemoveOp(ids) => FilteredLines((x: Line) => x.id !in ids, s.lines, s.next);
    case MergeOp(items) => MergeMeans(l, s, c, items, 0);
  }

  /** In every run, whatever the catalogue does meanwhile: one line per variant, and never more lines than allowed. */
  lemma {:induction false} RunKeeps(l: Limits, s: State, ops: seq<(Catalogue, Op)>)
    requires Inv(l, s) && forall i :: 0 <= i < |ops| ==> Asked(l, ops[i].1)
    ensures Inv(l, Run(l, s, ops))
    decreases |ops|
  {
    if ops != [] {
      StepKeeps(l, s, ops[0].0, ops[0].1);
      RunKeeps(l, Step(l, s, ops[0].0, ops[0].1), ops[1..]);
    }
  }

  /**
   * Adding is accepted exactly within the seller's limit and the stock, for what is held plus what is asked, and with
   * room.
   */
  lemma {:induction false} AddAcceptedIff(l: Limits, s: State, c: Catalogue, item: Item)
    ensures Add(l, s, c, item).Ok? <==>
            && Sellable(c, item.variant)
            && (LimitOf(c[item.variant]).Some? ==>
                    QuantityOf(s.lines, item.variant) + item.quantity <= LimitOf(c[item.variant]).value)
            && QuantityOf(s.lines, item.variant) + item.quantity <= c[item.variant].stock
            && (Held(s.lines, item.variant).Some? || |s.lines| < l.lineMax)
  {
  }

  /** The cart after an accepted addition. */
  function Added(s: State, c: Catalogue, item: Item): State
    requires item.variant in c
  {
    var wanted := QuantityOf(s.lines, item.variant) + item.quantity;
    match Held(s.lines, item.variant)
    case Some(i) => s.(lines := s.lines[i := s.lines[i].(quantity := wanted)])
    case None => Appended(s, c, item.variant, wanted)
  }

  lemma {:induction false} AddIsAdded(l: Limits, s: State, c: Catalogue, item: Item)
    requires Add(l, s, c, item).Ok?
    ensures item.variant in c && Add(l, s, c, item).value == Added(s, c, item)
    ensures Held(s.lines, item.variant).None? ==> |s.lines| < l.lineMax
  {
  }

  lemma {:induction false} AddedMeans(l: Limits, s: State, c: Catalogue, item: Item, v: nat)
    requires Inv(l, s) && item.quantity >= 1 && item.variant in c
    requires (Held(s.lines, item.variant).None? ==> |s.lines| < l.lineMax)
    ensures Inv(l, Added(s, c, item)) && Extends(s, Added(s, c, item), c)
    ensures QuantityOf(Added(s, c, item).lines, v) == QuantityOf(s.lines, v) + (if v == item.variant then item.quantity
                else 0)
  {
    var wanted := QuantityOf(s.lines, item.variant) + item.quantity;
    match Held(s.lines, item.variant)
    case Some(i) => SetMeans(l, s, c, i, wanted, v);
    case None => AppendedMeans(l, s, c, item.variant, wanted, v);
  }

  /** An accepted addition sums: its own line gains exactly what was asked, and no other line changes. */
  lemma {:induction false} AddMeans(l: Limits, s: State, c: Catalogue, item: Item, v: nat)
    requires Inv(l, s) && item.quantity >= 1 && Add(l, s, c, item).Ok?
    ensures var after := Add(l, s, c, item).value;
            && Inv(l, after) && Extends(s, after, c)
            && QuantityOf(after.lines, v) == QuantityOf(s.lines, v) + (if v == item.variant then item.quantity else 0)
  {
    AddIsAdded(l, s, c, item);
    AddedMeans(l, s, c, item, v);
  }

  // ------------------------------------------------------ in the row's columns

  /** The variant can be bought at all: it and its product are there, and both are on sale. */
  predicate OnSale(c: Catalogue, v: nat) {
    v in c && c[v].live && c[v].isActive && c[v].productLive && c[v].productActive
  }

  /** Within the variant's own limit when it has one, otherwise within the product's when that has one. */
  predicate WithinLimit(o: Offer, quantity: nat) {
    if o.limit.Some? then quantity <= o.limit.value else o.productLimit.Some? ==> quantity <= o.productLimit.value
  }

  /** Which refusal a quantity gets, with its number: unavailable, then the limit that applies, then the stock. */
  lemma {:induction false} OrderableExact(c: Catalogue, v: nat, quantity: nat)
    ensures !OnSale(c, v) ==> Orderable(c, v, quantity) == Some(Unavailable)
    ensures OnSale(c, v) && !WithinLimit(c[v], quantity) ==>
              Orderable(c, v, quantity)
                  == Some(PurchaseLimit(if c[v].limit.Some? then c[v].limit.value else c[v].productLimit.value))
    ensures OnSale(c, v) && WithinLimit(c[v], quantity) && quantity > c[v].stock ==>
              Orderable(c, v, quantity) == Some(StockExceeded(c[v].stock))
    ensures OnSale(c, v) && WithinLimit(c[v], quantity) && quantity <= c[v].stock ==> Orderable(c, v, quantity) == None
  {
  }

  /** The units a cart holds of a variant are those of its one line, or none. */
  lemma {:induction false} HeldExact(l: Limits, s: State, v: nat)
    requires Inv(l, s)
    ensures (forall i :: 0 <= i < |s.lines| ==> s.lines[i].variant != v) ==>
              Held(s.lines, v) == None && QuantityOf(s.lines, v) == 0
    ensures forall i :: 0 <= i < |s.lines| && s.lines[i].variant == v ==>
              Held(s.lines, v) == Some(i) && QuantityOf(s.lines, v) == s.lines[i].quantity
  {
    forall i | 0 <= i < |s.lines| && s.lines[i].variant == v ensures Held(s.lines, v) == Some(i) { HeldAt(s.lines, i); }
  }

  /**
   * An addition is refused as the sum is, then when a new line would be one too many. Otherwise the variant's line has
   * the
   * sum and is as it was, or there is a new last line at today's seller and price.
   */
  lemma {:induction false} AddExact(l: Limits, s: State, c: Catalogue, item: Item)
    requires Inv(l, s)
    ensures var sum := QuantityOf(s.lines, item.variant) + item.quantity;
            var here := exists i :: 0 <= i < |s.lines| && s.lines[i].variant == item.variant;
            if Orderable(c, item.variant, sum).Some?
            then Add(l, s, c, item) == Err(Orderable(c, item.variant, sum).value)
            else if !here && |s.lines| >= l.lineMax then Add(l, s, c, item) == Err(CartFull)
            else Add(l, s, c, item).Ok?
    ensures Add(l, s, c, item).Ok? ==>
              var after := Add(l, s, c, item).value;
              && (forall i :: 0 <= i < |s.lines| && s.lines[i].variant == item.variant ==>
                    && after.next == s.next
                    && after.lines == s.lines[i := s.lines[i].(quantity := s.lines[i].quantity + item.quantity)])
              && ((forall i :: 0 <= i < |s.lines| ==> s.lines[i].variant != item.variant) ==>
                    && item.variant in c && after.next == s.next + 1
                    && after.lines == s.lines + [Line(s.next, item.variant, c[item.variant].seller, item.quantity,
                                                      c[item.variant].price)])
  {
    HeldExact(l, s, item.variant);
    if Add(l, s, c, item).Ok? { AddIsAdded(l, s, c, item); }
  }

  /** Addition, said of the columns alone. */
  lemma {:induction false} AddAcceptedExact(l: Limits, s: State, c: Catalogue, item: Item)
    requires Inv(l, s)
    ensures Add(l, s, c, item).Ok?
       <==> && OnSale(c, item.variant)
            && WithinLimit(c[item.variant], QuantityOf(s.lines, item.variant) + item.quantity)
            && QuantityOf(s.lines, item.variant) + item.quantity <= c[item.variant].stock
            && ((exists i :: 0 <= i < |s.lines| && s.lines[i].variant == item.variant) || |s.lines| < l.lineMax)
  {
    OrderableExact(c, item.variant, QuantityOf(s.lines, item.variant) + item.quantity);
    AddExact(l, s, c, item);
  }

  /** Setting a quantity changes that of one line alone, or is refused: not of this cart, or not orderable, and why. */
  lemma {:induction false} UpdateExact(l: Limits, s: State, c: Catalogue, id: nat, quantity: nat)
    requires Inv(l, s)
    ensures (forall i :: 0 <= i < |s.lines| ==> s.lines[i].id != id) ==> Update(s, c, id, quantity) == Err(NotFound)
    ensures forall i :: 0 <= i < |s.lines| && s.lines[i].id == id ==>
              Update(s, c, id, quantity)
                  == (if Orderable(c, s.lines[i].variant, quantity).Some?
                      then Err(Orderable(c, s.lines[i].variant, quantity).value)
                      else Ok(State(s.lines[i := s.lines[i].(quantity := quantity)], s.next)))
  {
    forall i | 0 <= i < |s.lines| && s.lines[i].id == id ensures LineAt(s.lines, id) == Some(i) {
      LineAtIs(s.lines, i);
    }
  }

  /** Setting a quantity, said of the columns alone. */
  lemma {:induction false} UpdateAcceptedExact(l: Limits, s: State, c: Catalogue, i: nat, quantity: nat)
    requires Inv(l, s) && i < |s.lines|
    ensures Update(s, c, s.lines[i].id, quantity).Ok?
       <==> && OnSale(c, s.lines[i].variant) && WithinLimit(c[s.lines[i].variant], quantity)
            && quantity <= c[s.lines[i].variant].stock
  {
    OrderableExact(c, s.lines[i].variant, quantity);
    UpdateExact(l, s, c, s.lines[i].id, quantity);
  }

  /** The cap of a merge is the least of what one person may hold, the stock, and the limit that applies. */
  lemma {:induction false} CapExact(l: Limits, o: Offer)
    ensures Cap(l, o) <= l.itemMax && Cap(l, o) <= o.stock && WithinLimit(o, Cap(l, o))
    ensures forall q: nat :: q <= l.itemMax && q <= o.stock && WithinLimit(o, q) && q <= 9007199254740991 ==>
                q <= Cap(l, o)
  {
  }

  /**
   * What a merge leaves of a variant that was asked for and can be sold: no more than one person may hold, than the
   * stock
   * and than the limit that applies; what was held and asked for together, if that is within all three.
   */
  lemma {:induction false} MergedExact(l: Limits, c: Catalogue, v: nat, held: nat, wanted: nat)
    requires wanted > 0
    ensures var fits := OnSale(c, v) && 1 <= l.itemMax && 1 <= c[v].stock && WithinLimit(c[v], 1);
            && (!fits ==> Merged(l, c, v, held, wanted) == held)
            && (fits ==> Merged(l, c, v, held, wanted) <= l.itemMax && Merged(l, c, v, held, wanted) <= c[v].stock
                         && WithinLimit(c[v], Merged(l, c, v, held, wanted))
                         && Merged(l, c, v, held, wanted) <= held + wanted)
            && (fits ==> forall q: nat | q <= held + wanted && q <= l.itemMax && q <= c[v].stock && WithinLimit(c[v], q)
                                         && q <= 9007199254740991 :: q <= Merged(l, c, v, held, wanted))
  {
    if v in c { CapExact(l, c[v]); }
  }

  lemma {:induction false} LineAtIs(lines: seq<Line>, i: nat)
    requires OnePerVariant(lines) && i < |lines|
    ensures LineAt(lines, lines[i].id) == Some(i)
  {
    assert forall j :: 0 <= j < |lines| && j != i ==> lines[Min(i, j)].id != lines[Max(i, j)].id;
  }

  /**
   * Setting a quantity is accepted exactly for a line of this cart and an orderable quantity, which the line then has.
   */
  lemma {:induction false} UpdateMeans(l: Limits, s: State, c: Catalogue, i: nat, quantity: nat, v: nat)
    requires Inv(l, s) && i < |s.lines|
    ensures Update(s, c, s.lines[i].id, quantity).Ok? <==> Orderable(c, s.lines[i].variant, quantity).None?
    ensures Update(s, c, s.lines[i].id, quantity).Ok? ==>
              var after := Update(s, c, s.lines[i].id, quantity).value;
              && Extends(s, after, c) && |after.lines| == |s.lines|
              && QuantityOf(after.lines, v) == if v == s.lines[i].variant then quantity else QuantityOf(s.lines, v)
  {
    LineAtIs(s.lines, i);
    QuantitySet(s.lines, i, quantity, v);
  }

  /** Removing deletes exactly the listed lines and leaves the others as they are. */
  lemma {:induction false} RemoveMeans(s: State, ids: set<nat>, line: Line)
    ensures line in Remove(s, ids).lines <==> line in s.lines && line.id !in ids
    ensures Remove(s, ids).next == s.next
  {
    FilterMembers((x: Line) => x.id !in ids, s.lines, line);
  }

  /** Adding stays within what one person may hold exactly when the sum does: no check of its own looks at it. */
  lemma {:induction false} AddWithinItemMaxIff(l: Limits, s: State, c: Catalogue, item: Item)
    requires Inv(l, s) && item.quantity >= 1 && Add(l, s, c, item).Ok?
    ensures QuantityOf(Add(l, s, c, item).value.lines, item.variant) <= l.itemMax
       <==> QuantityOf(s.lines, item.variant) + item.quantity <= l.itemMax
  {
    AddMeans(l, s, c, item, item.variant);
  }

  /** One unit more than one person may hold: accepted by adding when the stock allows it. */
  lemma {:induction false} AddPassesItemMax(l: Limits)
    requires 1 <= l.itemMax && 1 <= l.lineMax
    ensures var c: Catalogue := map[7 := Offer(1, 1000, l.itemMax + 1, None, None, true, true, true, true)];
            var s := State([Line(0, 7, 1, l.itemMax, 1000)], 1);
            && Inv(l, s) && Add(l, s, c, Item(7, 1)).Ok?
            && QuantityOf(Add(l, s, c, Item(7, 1)).value.lines, 7) == l.itemMax + 1
  {
    var c: Catalogue := map[7 := Offer(1, 1000, l.itemMax + 1, None, None, true, true, true, true)];
    var s := State([Line(0, 7, 1, l.itemMax, 1000)], 1);
    HeldAt(s.lines, 0);
    assert Inv(l, s);
    AddAcceptedIff(l, s, c, Item(7, 1));
    AddMeans(l, s, c, Item(7, 1), 7);
  }
}
