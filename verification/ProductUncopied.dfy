/** A listing that any seller may create and nobody can duplicate. */
module ProductUncopied {
  import opened Prelude
  import opened VariantGrid
  import opened VariantRules
  import opened ProductRows
  import opened ProductAxes
  import opened ProductVariants
  import opened ProductWrites
  import opened ProductDuplicate

  /** A draft of the given options and nothing said of single combinations. */
  function PlainRequest(name: string, axes: seq<Axis>, price: nat): NewProduct {
    NewProduct(name, DRAFT, axes, [], Defaults(price, None, None, None))
  }

  lemma {:induction false} LaidPlain(keyed: seq<Keyed>, defaults: Defaults, next: nat)
    requires defaults.listPrice == None && forall k :: 0 <= k < |keyed| ==> keyed[k].plan.override == None
    ensures Lay([], keyed, Some(defaults), next).Ok?
  {
    var unmet := Unmet(keyed, LiveSignatures([]));
    assert OverlaidAll([], keyed) == [];
    forall m | 0 <= m < |unmet| ensures PriceOk(Born(unmet[m], defaults, next + m)) {
      assert unmet[m] in unmet;
      UnmetMembers(keyed, LiveSignatures([]), unmet[m]);
    }
  }

  lemma {:induction false} PlainRevises(blank: Product, n: nat, max: nat, axes: seq<Axis>, defaults: Defaults)
    requires Blanked(blank, n, axes) && GoodAxes(axes) && GridCount(axes) <= max && defaults.listPrice == None
    ensures PlanVariants<Detail>(axes, [], max).Ok? && Revise(blank, n, max, axes, [], Some(defaults)).Ok?
  {
    AcceptedIff<Detail>(axes, [], max);
    var keyed := KeyedPlans(blank, n, max, axes, []);
    forall k | 0 <= k < |keyed| ensures keyed[k].plan.override == None { PlanCarries(blank, n, max, axes, [], k); }
    LaidPlain(keyed, defaults, NextAt(blank.axes, axes, n, |axes|));
  }

  lemma {:induction false} SameKeysApart(a: seq<Axis>, b: seq<Axis>)
    requires forall c :: IsCombination(a, c) <==> IsCombination(b, c)
    ensures KeysApart(a) <==> KeysApart(b)
  {
  }

  /** Options in order and within the limit can be listed, and the listing's keys are apart exactly when theirs are. */
  lemma {:induction false} PlainCreates(s: Store, max: nat, name: string, axes: seq<Axis>, price: nat)
    requires StoreValid(s, max) && GoodAxes(axes) && GridCount(axes) <= max
    ensures var made := Create(s, max, DraftOf(s, PlainRequest(name, axes, price)), PlainRequest(name, axes, price),
                               false);
            && made.error == None && StoreValid(made.store, max) && LiveProduct(made.store, s.next)
            && (KeysApart(AxesOf(made.store.products[s.next].axes)) <==> KeysApart(axes))
  {
    var input := PlainRequest(name, axes, price);
    var d := DraftOf(s, input);
    PlainRevises(d.row, d.next, max, axes, input.defaults);
    CreateKeeps(s, max, d, input, false);
    var revised := Revise(d.row, d.next, max, axes, [], Some(input.defaults));
    CreatedAsRevised(s, max, d, input, revised);
    var stored := revised.value.0.axes;
    forall c ensures IsCombination(AxesOf(stored), c) <==> IsCombination(axes, c) {
      RevisedOffered(d.row.axes, axes, d.next, c);
      OfferedIffCombination(stored, c);
    }
    SameKeysApart(AxesOf(stored), axes);
  }

  // ------------------------------------------------------- reading a listing

  function LiveRows(variants: seq<Variant>, n: nat): seq<nat>
    requires n <= |variants|
  {
    if n == 0 then [] else LiveRows(variants, n - 1) + (if variants[n - 1].deleted then [] else [n - 1])
  }

  lemma {:induction false} LiveRowsAre(variants: seq<Variant>, n: nat)
    requires n <= |variants|
    ensures Distinct(LiveRows(variants, n))
    ensures forall k: nat :: k in LiveRows(variants, n) <==> k < n && !variants[k].deleted
  {
    if n > 0 { LiveRowsAre(variants, n - 1); }
  }

  function ReadVariant(v: Variant): ShownVariant {
    ShownVariant(v.choiceIds, v.price, v.listPrice, v.limit, v.isActive)
  }

  /** A listing can be read: this is one way of it. */
  lemma {:induction false} CanRead(p: Product) returns (view: Shown, rows: seq<nat>)
    ensures Shows(p, view, rows)
  {
    LiveRowsAre(p.variants, |p.variants|);
    rows := LiveRows(p.variants, |p.variants|);
    assert forall i :: 0 <= i < |rows| ==> rows[i] in rows;
    view := Shown(p.name,
                  seq(|p.axes|, i requires 0 <= i < |p.axes| => ShownOption(p.axes[i].name, LiveChoices(p.axes[i]))),
                  seq(|rows|, i requires 0 <= i < |rows| => ReadVariant(p.variants[rows[i]])));
  }

  /** Created without complaint in an empty store, and refused whenever it is read back to be copied. */
  lemma {:induction false} CreatedNeverCopied(max: nat, cap: nat, price: nat)
    returns (s: Store, view: Shown, rows: seq<nat>)
    requires max >= 4 && cap >= |DUPLICATE_NAME_SUFFIX|
    ensures var input, empty := PlainRequest("tea", Blurred(), price), Store(map[], 0);
            var made := Create(empty, max, DraftOf(empty, input), input, false);
            made.error == None && s == made.store
    ensures StoreValid(s, max) && LiveProduct(s, 0) && Shows(s.products[0], view, rows)
    ensures !KeysApart(AxesOf(s.products[0].axes))
    ensures var copied := Create(s, max, DraftOf(s, DuplicateRequest(cap, view)), DuplicateRequest(cap, view), false);
            copied.store == s && copied.error.Some? && copied.error.value.PlanRefused?
  {
    var empty, input := Store(map[], 0), PlainRequest("tea", Blurred(), price);
    BlurredIs();
    PlainCreates(empty, max, "tea", Blurred(), price);
    s := Create(empty, max, DraftOf(empty, input), input, false).store;
    view, rows := CanRead(s.products[0]);
    DuplicateRefused(s, max, cap, 0, view, rows, DraftOf(s, DuplicateRequest(cap, view)));
  }
}
