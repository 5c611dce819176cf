/**
 * The product service: rows rewritten step by step inside a transaction, each write proved against its specification.
 */
module ProductService {
  import opened Prelude
  import opened VariantGrid
  import opened VariantRules
  import opened ProductRows
  import opened ProductAxes
  import opened ProductVariants
  import Writes = ProductWrites

  // ------------------------------------------------------ lemmas for the loops

  lemma {:induction false} AdditionsNext(values: seq<string>, n: nat, held: seq<string>, order: nat, next: nat)
    requires n < |values|
    ensures Additions(values[..n + 1], held, order, next)
         == Additions(values[..n], held, order, next)
            + (if values[n] in held then []
               else [Choice(next + |Additions(values[..n], held, order, next)|, values[n],
                            order + |Additions(values[..n], held, order, next)|, false)])
  {
    var shorter, longer := values[..n], values[..n + 1];
    if n == 0 {
      assert longer == [values[0]] && longer[1..] == [];
    } else {
      assert longer[1..] == values[1..][..n] && shorter[1..] == values[1..][..n - 1];
      AdditionsNext(values[1..], n - 1, held, order, next);
      AdditionsNext(values[1..], n - 1, held, order + 1, next + 1);
    }
  }

  ghost predicate IsAdded(stored: seq<StoredAxis>, axes: seq<Axis>, first: nat, j: nat, axis: StoredAxis)
    requires j < |stored| == |axes|
  {
    axis == AddTo(stored[j], axes[j].values, NextAt(stored, axes, first, j))
  }

  ghost predicate AddedSoFar(stored: seq<StoredAxis>, axes: seq<Axis>, first: nat, current: seq<StoredAxis>)
    requires |current| <= |stored| == |axes|
  {
    forall j :: 0 <= j < |current| ==> IsAdded(stored, axes, first, j, current[j])
  }

  lemma {:induction false} AddedNext(stored: seq<StoredAxis>, axes: seq<Axis>, first: nat, current: seq<StoredAxis>,
                                     axis: StoredAxis)
    requires |current| < |stored| == |axes| && AddedSoFar(stored, axes, first, current)
    requires IsAdded(stored, axes, first, |current|, axis)
    ensures AddedSoFar(stored, axes, first, current + [axis])
  {
    var more := current + [axis];
    forall j | 0 <= j < |more| ensures IsAdded(stored, axes, first, j, more[j]) {
      if j < |current| { assert more[j] == current[j]; }
    }
  }

  lemma {:induction false} AddedAll(stored: seq<StoredAxis>, axes: seq<Axis>, first: nat, current: seq<StoredAxis>)
    requires |current| == |stored| == |axes| && AddedSoFar(stored, axes, first, current)
    ensures current == AddAll(stored, axes, first)
  {
    forall j | 0 <= j < |current| ensures current[j] == AddAll(stored, axes, first)[j] {
      assert IsAdded(stored, axes, first, j, current[j]);
    }
  }

  /** A variant once the plans so far have been laid over it, orphans not yet switched off. */
  function Midway(v: Variant, plan: Option<VariantPlan>): Variant {
    if v.deleted || plan.None? || plan.value.override.None? then v else Changed(v, plan.value.override.value.detail)
  }

  lemma {:induction false} PlanForNext(keyed: seq<Keyed>, n: nat, signature: string)
    requires n < |keyed|
    ensures PlanFor(keyed[..n + 1], signature) == if PlanFor(keyed[..n], signature).Some?
                then PlanFor(keyed[..n], signature)
                                                  else if keyed[n].signature == signature then Some(keyed[n].plan)
                                                      else None
  {
    var shorter, longer := keyed[..n], keyed[..n + 1];
    if n == 0 {
      assert longer == [keyed[0]] && longer[1..] == [];
    } else {
      PlanForNext(keyed[1..], n - 1, signature);
      assert longer[1..] == keyed[1..][..n] && shorter[1..] == keyed[1..][..n - 1];
    }
  }

  lemma {:induction false} NotPlannedYet(keyed: seq<Keyed>, n: nat)
    requires n < |keyed| && SignApart(keyed)
    ensures PlanFor(keyed[..n], keyed[n].signature).None?
  {
    if PlanFor(keyed[..n], keyed[n].signature).Some? {
      var k := PlanFound(keyed[..n], keyed[n].signature);
    }
  }

  lemma {:induction false} UnmetNext(keyed: seq<Keyed>, n: nat, held: set<string>)
    requires n < |keyed|
    ensures Unmet(keyed[..n + 1], held) == Unmet(keyed[..n], held) + (if keyed[n].signature in held then []
                else [keyed[n]])
  {
    var shorter, longer := keyed[..n], keyed[..n + 1];
    if n == 0 {
      assert longer == [keyed[0]] && longer[1..] == [];
    } else {
      UnmetNext(keyed[1..], n - 1, held);
      assert longer[1..] == keyed[1..][..n] && shorter[1..] == keyed[1..][..n - 1];
    }
  }

  /** The live variants by signature, as row positions. */
  ghost predicate Indexes(variants: seq<Variant>, n: nat, bySignature: map<string, nat>)
    requires n <= |variants|
  {
    && (forall s :: s in bySignature ==> bySignature[s] < n && !variants[bySignature[s]].deleted
                                         && variants[bySignature[s]].signature == s)
    && (forall k :: 0 <= k < n && !variants[k].deleted ==> variants[k].signature in bySignature)
  }

  method IndexVariants(variants: seq<Variant>) returns (bySignature: map<string, nat>)
    ensures Indexes(variants, |variants|, bySignature)
    ensures bySignature.Keys == LiveSignatures(variants)
  {
    bySignature := map[];
    for k := 0 to |variants|
      invariant Indexes(variants, k, bySignature)
    {
      if !variants[k].deleted { bySignature := bySignature[variants[k].signature := k]; }
    }
    forall s ensures s in bySignature <==> s in LiveSignatures(variants) {
      if s in bySignature { assert variants[bySignature[s]] in variants; }
    }
  }

  /** The first `n` plans laid over the rows, orphans not yet switched off. */
  ghost predicate LaidSoFar(before: seq<Variant>, keyed: seq<Keyed>, n: nat, variants: seq<Variant>)
    requires n <= |keyed|
  {
    && |variants| == |before|
    && (forall k :: 0 <= k < |before| ==> variants[k] == Midway(before[k], PlanFor(keyed[..n], before[k].signature)))
    && AllPricesOk(variants)
  }

  /** What a met plan makes of its row. */
  function Met(v: Variant, plan: VariantPlan): Variant {
    if plan.override.None? then v else Changed(v, plan.override.value.detail)
  }

  /** One plan met by a live variant changes that variant and no other. */
  lemma {:induction false} LaidMet(before: seq<Variant>, keyed: seq<Keyed>, n: nat, variants: seq<Variant>, row: nat)
    requires n < |keyed| && SignApart(keyed) && Apart(before) && row < |before| && LaidSoFar(before, keyed, n, variants)
    requires !before[row].deleted && before[row].signature == keyed[n].signature
    ensures PriceOk(Met(variants[row], keyed[n].plan)) ==>
                LaidSoFar(before, keyed, n + 1, variants[row := Met(variants[row], keyed[n].plan)])
    ensures Overlaid(before[row], PlanFor(keyed, before[row].signature)) == Met(variants[row], keyed[n].plan)
  {
    NotPlannedYet(keyed, n);
    PlanForAt(keyed, n);
    var after := variants[row := Met(variants[row], keyed[n].plan)];
    forall k | 0 <= k < |before| ensures after[k] == Midway(before[k], PlanFor(keyed[..n + 1], before[k].signature)) {
      PlanForNext(keyed, n, before[k].signature);
      if k != row { assert ApartPair(before[Min(k, row)], before[Max(k, row)]); }
    }
  }

  /** A plan no live variant meets changes none. */
  lemma {:induction false} LaidUnmet(before: seq<Variant>, keyed: seq<Keyed>, n: nat, variants: seq<Variant>)
    requires n < |keyed| && LaidSoFar(before, keyed, n, variants) && keyed[n].signature !in LiveSignatures(before)
    ensures LaidSoFar(before, keyed, n + 1, variants)
  {
    forall k | 0 <= k < |before|
      ensures variants[k] == Midway(before[k], PlanFor(keyed[..n + 1], before[k].signature)) {
      PlanForNext(keyed, n, before[k].signature);
      assert before[k] in before;
    }
  }

  /** Each plan with the ids of its combination and the signature they make. */
  method KeyPlans(current: seq<StoredAxis>, plans: seq<VariantPlan>) returns (keyed: seq<Keyed>)
    ensures keyed == KeyAll(current, plans)
  {
    keyed := [];
    for n := 0 to |plans|
      invariant |keyed| == n && forall k :: 0 <= k < n ==> keyed[k] == KeyAll(current, plans)[k]
    {
      var ids := ValueIdsOf(current, plans[n].combination);
      var signature := SignatureOf(ids);
      keyed := keyed + [Keyed(plans[n], ids, signature)];
    }
  }

  ghost predicate PlannedSoFar(keyed: seq<Keyed>, n: nat, planned: set<string>)
    requires n <= |keyed|
  {
    forall s :: s in planned <==> PlanFor(keyed[..n], s).Some?
  }

  lemma {:induction false} PlannedNext(keyed: seq<Keyed>, n: nat, planned: set<string>)
    requires n < |keyed| && PlannedSoFar(keyed, n, planned)
    ensures PlannedSoFar(keyed, n + 1, planned + {keyed[n].signature})
  {
    forall s ensures s in planned + {keyed[n].signature} <==> PlanFor(keyed[..n + 1], s).Some? {
      PlanForNext(keyed, n, s);
    }
  }

  lemma {:induction false} PlannedWhole(keyed: seq<Keyed>, planned: set<string>)
    requires PlannedSoFar(keyed, |keyed|, planned)
    ensures forall s :: s in planned <==> PlanFor(keyed, s).Some?
  {
    assert keyed[..|keyed|] == keyed;
  }

  /** The loop over the plans: updates in place where a live variant has the signature, the rest collected. */
  method LayPlans(before: seq<Variant>, keyed: seq<Keyed>)
    returns (variants: seq<Variant>, unmet: seq<Keyed>, planned: set<string>, ok: bool)
    requires SignApart(keyed) && Apart(before) && AllPricesOk(before)
    ensures ok ==> LaidSoFar(before, keyed, |keyed|, variants)
    ensures ok ==> unmet == Unmet(keyed, LiveSignatures(before))
    ensures ok ==> forall s :: s in planned <==> PlanFor(keyed, s).Some?
    ensures !ok ==> !AllPricesOk(OverlaidAll(before, keyed))
  {
    var bySignature := IndexVariants(before);
    variants, unmet, planned, ok := before, [], {}, true;
    for n := 0 to |keyed|
      invariant LaidSoFar(before, keyed, n, variants)
      invariant unmet == Unmet(keyed[..n], LiveSignatures(before))
      invariant PlannedSoFar(keyed, n, planned)
    {
      PlannedNext(keyed, n, planned);
      UnmetNext(keyed, n, LiveSignatures(before));
      var signature := keyed[n].signature;
      planned := planned + {signature};
      if signature !in bySignature {
        LaidUnmet(before, keyed, n, variants);
        unmet := unmet + [keyed[n]];
      } else {
        var row := bySignature[signature];
        LaidMet(before, keyed, n, variants, row);
        if keyed[n].plan.override.Some? {
          var changed := Changed(variants[row], keyed[n].plan.override.value.detail);
          if !PriceOk(changed) {
            assert OverlaidAll(before, keyed)[row] == changed;
            ok := false;
            return;
          }
          variants := variants[row := changed];
        } else {
          assert variants[row := variants[row]] == variants;
        }
      }
    }
    PlannedWhole(keyed, planned);
    assert keyed[..|keyed|] == keyed;
  }

  /** Switching the orphans off completes the laying. */
  lemma {:induction false} LaidThenSwitchedOff(before: seq<Variant>, keyed: seq<Keyed>, variants: seq<Variant>,
                                               planned: set<string>, k: nat)
    requires LaidSoFar(before, keyed, |keyed|, variants) && k < |before|
    requires forall s :: s in planned <==> PlanFor(keyed, s).Some?
    ensures (if !before[k].deleted && before[k].signature !in planned then variants[k].(isActive := false)
                else variants[k])
         == OverlaidAll(before, keyed)[k]
    ensures PriceOk(OverlaidAll(before, keyed)[k])
  {
    assert keyed[..|keyed|] == keyed;
    assert PriceOk(variants[k]);
  }

  /** One row per plan, numbered on from `next`. */
  method CreateVariants(keyed: seq<Keyed>, defaults: Defaults, next: nat) returns (born: seq<Variant>, ok: bool)
    ensures born == Births(keyed, defaults, next)
    ensures ok <==> AllPricesOk(born)
  {
    born := [];
    for k := 0 to |keyed|
      invariant |born| == k && forall j :: 0 <= j < k ==> born[j] == Born(keyed[j], defaults, next + j)
    {
      born := born + [Born(keyed[k], defaults, next + k)];
    }
    ok := AllPricesOk(born);
  }

  /** Live variants no plan reached are switched off. */
  method DeactivateOrphans(variants: seq<Variant>, before: seq<Variant>, planned: set<string>)
    returns (after: seq<Variant>)
    requires |before| <= |variants|
    ensures |after| == |variants|
    ensures forall k :: 0 <= k < |variants| ==>
              after[k] == if k < |before| && !before[k].deleted && before[k].signature !in planned
                  then variants[k].(isActive := false) else variants[k]
  {
    after := variants;
    for k := 0 to |before|
      invariant |after| == |variants|
      invariant forall j :: 0 <= j < |variants| ==>
                  after[j] == if j < k && !before[j].deleted && before[j].signature !in planned
                      then variants[j].(isActive := false) else variants[j]
    {
      if !before[k].deleted && before[k].signature !in planned { after := after[k := after[k].(isActive := false)]; }
    }
  }

  lemma {:induction false} PlansSignApart(stored: seq<StoredAxis>, axes: seq<Axis>, overrides: seq<VariantOverride>,
                                          max: nat, next: nat)
    requires |stored| == |axes| && (GoodAxes(axes) ==> AxesValid(stored, next))
    requires PlanVariants(axes, overrides, max).Ok?
    ensures SignApart(KeyAll(AddAll(stored, axes, next), PlanVariants(axes, overrides, max).value))
  {
    AcceptedIff(axes, overrides, max);
    PlansAreGrid(stored, axes, overrides, max, next);
  }

  /** What revising the row over the request comes to. */
  ghost predicate IsRevision(p: Product, next: nat, max: nat, axes: seq<Axis>, overrides: seq<VariantOverride>,
                             defaults: Option<Defaults>, revised: Result<(Product, nat), Error>)
    requires |p.axes| == |axes|
  {
    revised == Revise(p, next, max, axes, overrides, defaults)
  }

  /** What a transaction that came to `result` writes at `id`: the row and the ids drawn, or nothing. */
  ghost predicate Lands(result: Result<(Product, nat), Error>, id: nat, saved: nat, written: Result<Product, Error>,
                        before: map<nat, Product>, after: map<nat, Product>, next: nat) {
    match result
    case Err(e) => written.Err? && written.error == e && after == before && next == saved
    case Ok(done) => written.Ok? && written.value == done.0 && after == before[id := done.0] && next == done.1
  }

  /** The planner accepts the request, with these plans. */
  ghost predicate IsPlan(axes: seq<Axis>, overrides: seq<VariantOverride>, max: nat, plans: seq<VariantPlan>) {
    PlanVariants(axes, overrides, max) == Ok(plans)
  }

  /** What a transaction on one row leaves in hand, when its outcome is `result`; after an error it is rolled back. */
  ghost predicate Yields(result: Result<(Product, nat), Error>, error: Option<Error>, row: Product, next: nat) {
    match result
    case Err(e) => error == Some(e)
    case Ok(done) => error == None && row == done.0 && next == done.1
  }

  /** An accepted creation is the revision of the drafted row, settled. */
  lemma {:induction false} CreatedBy(s: Writes.Store, max: nat, d: Writes.Draft, input: Writes.NewProduct,
                                     revised: Result<(Product, nat), Error>)
    requires |d.row.axes| == |input.axes| && PlanVariants(input.axes, input.overrides, max).Ok?
    requires revised == Revise(d.row, d.next, max, input.axes, input.overrides, Some(input.defaults))
    ensures Writes.Create(s, max, d, input, false)
         == (match Writes.Finish(revised, input.status, 0)
             case Err(error) => Writes.Outcome(s, Some(error))
             case Ok(done) => Writes.Outcome(Writes.Store(s.products[s.next := done.0], done.1), None))
  {
  }

  /** A row the replanning may start from. */
  ghost predicate Revisable(p: Product, next: nat, axes: seq<Axis>) {
    |p.axes| == |axes| && (GoodAxes(axes) ==> AxesValid(p.axes, next)) && Apart(p.variants) && AllPricesOk(p.variants)
  }

  lemma {:induction false} StoredRevisable(s: Writes.Store, max: nat, id: nat)
    requires Writes.StoreValid(s, max) && Writes.LiveProduct(s, id)
    ensures forall name, axes :: |axes| == |s.products[id].axes| ==>
                Revisable(s.products[id].(name := name), s.next, axes)
  {
    var p := s.products[id];
    assert Writes.ProductValid(p, s.next, max);
    forall k | 0 <= k < |p.variants| ensures PriceOk(p.variants[k]) {
      assert VariantValid(p.axes, s.next, p.variants[k]);
    }
  }

  class Products {
    const max: nat
    var products: map<nat, Product>
    var next: nat
    /** The locked row as the transaction under way has rewritten it; `products` sees it at the commit. */
    var row: Product

    function Contents(): Writes.Store reads this { Writes.Store(products, next) }

    ghost predicate Valid() reads this { Writes.StoreValid(Contents(), max) }

    constructor (max: nat)
      ensures Valid() && this.max == max && Contents() == Writes.Store(map[], 1)
    {
      this.max, products, next := max, map[], 1;
      row := Writes.BlankProduct("", [], 1);
    }

    /** Inserts the choices the request added, axis by axis. */
    method AddChoices(axes: seq<Axis>) returns (current: seq<StoredAxis>)
      requires |row.axes| == |axes|
      modifies this`row, this`next
      ensures current == AddAll(old(row.axes), axes, old(next))
      ensures next == NextAt(old(row.axes), axes, old(next), |axes|)
      ensures row == old(row).(axes := current)
    {
      var stored := row.axes;
      ghost var first := next;
      current := [];
      for i := 0 to |axes|
        invariant |current| == i && AddedSoFar(stored, axes, first, current)
        invariant next == NextAt(stored, axes, first, i) && row == old(row)
      {
        NextStep(stored, axes, first, i);
        var axis := AddToAxis(stored[i], axes[i].values);
        AddedNext(stored, axes, first, current, axis);
        current := current + [axis];
      }
      AddedAll(stored, axes, first, current);
      row := row.(axes := current);
    }

    method AddToAxis(axis: StoredAxis, values: seq<string>) returns (after: StoredAxis)
      modifies this`next
      ensures after == AddTo(axis, values, old(next))
      ensures next == old(next) + |Inserted(axis, values, old(next))|
    {
      var live := ValuesIn(LiveChoices(axis));
      var choices: seq<Choice> := [];
      ghost var first := next;
      for j := 0 to |values|
        invariant choices == Additions(values[..j], live, |live|, first)
        invariant next == first + |choices|
      {
        AdditionsNext(values, j, live, |live|, first);
        if values[j] !in live {
          choices := choices + [Choice(next, values[j], |live| + |choices|, false)];
          next := next + 1;
        }
      }
      assert values[..|values|] == values;
      after := axis.(choices := axis.choices + choices);
    }

    /** Retires the choices the request dropped, axis by axis. */
    method RetireChoices(axes: seq<Axis>)
      requires |row.axes| == |axes|
      modifies this`row
      ensures row == old(row).(axes := RetireAll(old(row.axes), axes))
    {
      var current := row.axes;
      var after: seq<StoredAxis> := [];
      for i := 0 to |axes|
        invariant |after| == i && forall j :: 0 <= j < i ==> after[j] == RetireFrom(current[j], axes[j].values)
      {
        var kept := Elements(axes[i].values);
        var choices := seq(|current[i].choices|, k requires 0 <= k < |current[i].choices| =>
          var c := current[i].choices[k];
          if !c.deleted && c.value !in kept then c.(deleted := true) else c);
        assert choices == RetireFrom(current[i], axes[i].values).choices;
        after := after + [current[i].(choices := choices)];
      }
      assert after == RetireAll(current, axes);
      row := row.(axes := after);
    }

    /** Lays a plan over the stored variants and writes the result, or says why the table refuses it. */
    method WriteVariants(keyed: seq<Keyed>, defaults: Option<Defaults>) returns (error: Option<Error>)
      requires SignApart(keyed) && Apart(row.variants) && AllPricesOk(row.variants)
      modifies this`row, this`next
      ensures match Lay(old(row.variants), keyed, defaults, old(next))
              case Err(e) => error == Some(e)
              case Ok(laid) => error == None && row == old(row).(variants := laid.0) && next == laid.1
    {
      var before := row.variants;
      var variants, unmet, planned, ok := LayPlans(before, keyed);
      if !ok { return Some(ListPriceBelowPrice); }
      forall k | 0 <= k < |before| { LaidThenSwitchedOff(before, keyed, variants, planned, k); }
      assert AllPricesOk(OverlaidAll(before, keyed));
      var born: seq<Variant> := [];
      if unmet != [] {
        if defaults.None? { return Some(DefaultsMissing); }
        var bornOk;
        born, bornOk := CreateVariants(unmet, defaults.value, next);
        if !bornOk { return Some(ListPriceBelowPrice); }
        next := next + |born|;
      }
      var after := DeactivateOrphans(variants + born, before, planned);
      assert after == OverlaidAll(before, keyed) + born;
      if born == [] { assert after == OverlaidAll(before, keyed); }
      row := row.(variants := after);
      return None;
    }

    /** The choices as the request wants them; `current` is how they stood before any was retired. */
    method ReviseChoices(axes: seq<Axis>) returns (current: seq<StoredAxis>)
      requires |row.axes| == |axes|
      modifies this`row, this`next
      ensures current == AddAll(old(row.axes), axes, old(next))
      ensures next == NextAt(old(row.axes), axes, old(next), |axes|)
      ensures row == old(row).(axes := ReviseAll(old(row.axes), axes, old(next)))
    {
      current := AddChoices(axes);
      RetireChoices(axes);
    }

    /** Writes an accepted plan: choices added and retired, variants overlaid, created and switched off. */
    method WritePlans(axes: seq<Axis>, ghost overrides: seq<VariantOverride>, plans: seq<VariantPlan>,
                      defaults: Option<Defaults>,
                      ghost revised: Result<(Product, nat), Error>)
      returns (error: Option<Error>)
      requires Revisable(row, next, axes) && IsPlan(axes, overrides, max, plans)
      requires IsRevision(row, next, max, axes, overrides, defaults, revised)
      modifies this`row, this`next
      ensures Yields(revised, error, row, next)
    {
      ghost var p, first := row, next;
      PlansSignApart(p.axes, axes, overrides, max, first);
      var current := ReviseChoices(axes);
      var keyed := KeyPlans(current, plans);
      RevisedBy(p, first, max, axes, overrides, defaults, Lay(p.variants, keyed, defaults, next));
      error := WriteVariants(keyed, defaults);
    }

    /** Replans the row over `axes`. */
    method ReviseVariants(axes: seq<Axis>, overrides: seq<VariantOverride>, defaults: Option<Defaults>,
                          ghost revised: Result<(Product, nat), Error>)
      returns (error: Option<Error>)
      requires Revisable(row, next, axes)
      requires IsRevision(row, next, max, axes, overrides, defaults, revised)
      modifies this`row, this`next
      ensures Yields(revised, error, row, next)
    {
      var planned := PlanAll(axes, overrides, max);
      if planned.Err? { return Some(PlanRefused(planned.error)); }
      error := WritePlans(axes, overrides, planned.value, defaults, revised);
    }

    /** Derives the cached price and writes the requested status, or refuses to go on sale with nothing to sell. */
    method SettleRow(status: Status, increment: nat) returns (error: Option<Error>)
      modifies this`row
      ensures match Writes.Settle(old(row), status, increment)
              case Err(e) => error == Some(e) && row == old(row)
              case Ok(p) => error == None && row == p
    {
      if status == ACTIVE && !Writes.AnySellable(row.variants) { return Some(NotSellable); }
      var price := MinPrice(row.variants);
      row := row.(minPrice := price, status := status, version := row.version + increment);
      return None;
    }

    method MinPrice(variants: seq<Variant>) returns (price: Option<nat>)
      ensures price == Writes.LowestPrice(variants)
      ensures Writes.IsMinPrice(variants, price)
    {
      price := None;
      var k := |variants|;
      while k > 0
        invariant 0 <= k <= |variants| && price == Writes.LowestPrice(variants[k..])
      {
        k := k - 1;
        assert variants[k..][1..] == variants[k + 1..];
        var v := variants[k];
        if Sellable(v) && (price.None? || v.price < price.value) { price := Some(v.price); }
      }
      assert variants[0..] == variants;
      Writes.LowestIsMin(variants);
    }

    /** Replans the row and settles it. */
    method ReviseAndSettle(axes: seq<Axis>, overrides: seq<VariantOverride>, defaults: Option<Defaults>, status: Status,
                           increment: nat,
                           ghost revised: Result<(Product, nat), Error>)
      returns (error: Option<Error>)
      requires Revisable(row, next, axes)
      requires IsRevision(row, next, max, axes, overrides, defaults, revised)
      modifies this`row, this`next
      ensures Yields(Writes.Finish(revised, status, increment), error, row, next)
    {
      error := ReviseVariants(axes, overrides, defaults, revised);
      if error.None? { error := SettleRow(status, increment); }
    }

    /** The end of a transaction: the row becomes visible, or the ids it drew are given back. */
    method Commit(id: nat, error: Option<Error>, saved: nat, ghost finished: Result<(Product, nat), Error>)
      returns (written: Result<Product, Error>)
      requires Yields(finished, error, row, next)
      modifies this`products, this`next
      ensures Lands(finished, id, saved, written, old(products), products, next)
    {
      if error.Some? {
        next := saved;
        return Err(error.value);
      }
      products := products[id := row];
      return Ok(row);
    }

    /** Writes an accepted plan on a blank row and settles it. */
    method WriteAndSettle(axes: seq<Axis>, ghost overrides: seq<VariantOverride>, plans: seq<VariantPlan>,
                          defaults: Defaults, status: Status,
                          ghost revised: Result<(Product, nat), Error>)
      returns (error: Option<Error>)
      requires Revisable(row, next, axes) && IsPlan(axes, overrides, max, plans)
      requires IsRevision(row, next, max, axes, overrides, Some(defaults), revised)
      modifies this`row, this`next
      ensures Yields(Writes.Finish(revised, status, 0), error, row, next)
    {
      error := WritePlans(axes, overrides, plans, Some(defaults), revised);
      if error.None? { error := SettleRow(status, 0); }
    }

    /** The transaction that creates a listing from its draft, given its plan. */
    method Insert(d: Writes.Draft, input: Writes.NewProduct, plans: seq<VariantPlan>,
                  ghost revised: Result<(Product, nat), Error>)
      returns (made: Result<Product, Error>)
      requires Revisable(d.row, d.next, input.axes) && IsPlan(input.axes, input.overrides, max, plans)
      requires IsRevision(d.row, d.next, max, input.axes, input.overrides, Some(input.defaults), revised)
      modifies this
      ensures Lands(Writes.Finish(revised, input.status, 0), old(next), old(next), made, old(products), products, next)
    {
      var saved := next;
      row, next := d.row, d.next;
      var error := WriteAndSettle(input.axes, input.overrides, plans, input.defaults, input.status, revised);
      made := Commit(saved, error, saved, Writes.Finish(revised, input.status, 0));
    }

    /** The checks before the transaction, and the transaction. */
    method CreateFrom(d: Writes.Draft, input: Writes.NewProduct, refused: bool) returns (made: Result<Product, Error>)
      requires Writes.Blanked(d.row, d.next, input.axes)
      modifies this
      ensures Writes.Outcome(Contents(), if made.Ok? then None
                  else Some(made.error)) == Writes.Create(old(Contents()), max, d, input, refused)
      ensures made.Ok? ==> old(next) in products && made.value == products[old(next)]
    {
      var planned := PlanAll(input.axes, input.overrides, max);
      if planned.Err? { return Err(PlanRefused(planned.error)); }
      if refused { return Err(AttributesRefused); }
      ghost var revised := Revise(d.row, d.next, max, input.axes, input.overrides, Some(input.defaults));
      CreatedBy(Contents(), max, d, input, revised);
      made := Insert(d, input, planned.value, revised);
    }

    /** Creates a listing whole, or leaves no trace. */
    method Create(input: Writes.NewProduct, refused: bool) returns (made: Result<Product, Error>)
      requires Valid()
      modifies this
      ensures Valid()
      ensures Writes.Outcome(Contents(), if made.Ok? then None else Some(made.error))
           == Writes.Create(old(Contents()), max, Writes.DraftOf(old(Contents()), input), input, refused)
      ensures made.Ok? ==> old(next) in products && made.value == products[old(next)]
    {
      var draft := Writes.DraftOf(Contents(), input);
      Writes.CreateKeeps(Contents(), max, draft, input, refused);
      made := CreateFrom(draft, input, refused);
    }

    /** Edits a listing under its version, or leaves no trace. */
    method Update(id: nat, edit: Writes.Edit, refused: bool) returns (updated: Result<Product, Error>)
      requires Valid()
      modifies this
      ensures Valid()
      ensures Writes.Outcome(Contents(), if updated.Ok? then None
                  else Some(updated.error)) == Writes.Update(old(Contents()), max, id, edit, refused)
      ensures updated.Ok? ==> id in products && updated.value == products[id]
    {
      Writes.UpdateKeeps(Contents(), max, id, edit, refused);
      if id !in products || products[id].deleted { return Err(NotFound); }
      var p := products[id];
      StoredRevisable(Contents(), max, id);
      var status := edit.status.GetOr(p.status);
      if p.version != edit.version { return Err(VersionConflict); }
      if (edit.touchesAttributes || status == ACTIVE) && refused { return Err(AttributesRefused); }
      if edit.options.Some? && !SameAxes(p.axes, edit.options.value) { return Err(AxesChanged); }
      var saved := next;
      row := p.(name := edit.name.GetOr(p.name));
      var axes := edit.options.GetOr(AxesOf(p.axes));
      ghost var revised := Revise(row, next, max, axes, edit.overrides, edit.defaults);
      var error := ReviseAndSettle(axes, edit.overrides, edit.defaults, status, 1, revised);
      updated := Commit(id, error, saved, Writes.Finish(revised, status, 1));
    }

    method AllLive(selection: seq<nat>) returns (live: bool)
      ensures live == Writes.AllLive(Contents(), selection)
    {
      for i := 0 to |selection|
        invariant forall j :: 0 <= j < i ==> Writes.LiveProduct(Contents(), selection[j])
      {
        if selection[i] !in products || products[selection[i]].deleted { return false; }
      }
      return true;
    }

    /** One listing after the other, in lock order; the first refusal takes all of it back. */
    method SettleSelection(selection: seq<nat>, status: Status, refused: set<nat>) returns (error: Option<Error>)
      requires forall id :: id in selection ==> id in products
      modifies this`products, this`row
      ensures match Writes.SettleEach(old(products), selection, status, refused)
              case Err(e) => error == Some(e) && products == old(products)
              case Ok(after) => error == None && products == after
    {
      var saved := products;
      for i := 0 to |selection|
        invariant products.Keys == saved.Keys
        invariant Writes.SettleEach(saved, selection, status, refused)
                      == Writes.SettleEach(products, selection[i..], status, refused)
      {
        if status == ACTIVE && selection[i] in refused {
          products := saved;
          return Some(AttributesRefused);
        }
        assert selection[i..][0] == selection[i] && selection[i..][1..] == selection[i + 1..];
        row := products[selection[i]];
        error := SettleRow(status, 1);
        if error.Some? {
          products := saved;
          return;
        }
        products := products[selection[i] := row];
      }
      return None;
    }

    /** Settles every listing of the selection, or none of them. */
    method ChangeStatuses(ids: seq<nat>, status: Status, refused: set<nat>) returns (error: Option<Error>)
      requires Valid()
      modifies this`products, this`row
      ensures Valid()
      ensures Writes.Outcome(Contents(), error) == Writes.ChangeStatuses(old(Contents()), ids, status, refused)
    {
      Writes.ChangeStatusesKeeps(Contents(), max, ids, status, refused);
      var selection := Writes.Selection(ids);
      var live := AllLive(selection);
      if !live { return Some(NotFound); }
      error := SettleSelection(selection, status, refused);
    }

    /** Retires a listing with its variants. */
    method Remove(id: nat) returns (removed: Result<Product, Error>)
      requires Valid()
      modifies this`products
      ensures Valid()
      ensures Writes.Outcome(Contents(), if removed.Ok? then None
                  else Some(removed.error)) == Writes.Remove(old(Contents()), id)
      ensures removed.Ok? ==> id in products && removed.value == products[id]
    {
      Writes.RemoveKeeps(Contents(), max, id);
      if id !in products || products[id].deleted { return Err(NotFound); }
      var p := products[id];
      var variants := p.variants;
      for k := 0 to |variants|
        invariant |variants| == |p.variants|
        invariant forall j :: 0 <= j < |variants| ==> variants[j] == if j < k then Writes.Retired(p.variants)[j]
                      else p.variants[j]
      {
        if !variants[k].deleted { variants := variants[k := variants[k].(deleted := true, isActive := false)]; }
      }
      assert variants == Writes.Retired(p.variants);
      products := products[id := p.(variants := variants, deleted := true, status := INACTIVE, minPrice := None,
                                    version := p.version + 1)];
      return Ok(products[id]);
    }
  }
}
