/** One product with its variants: planning a request over the stored grid, and what the rows always satisfy. */
module ProductVariants {
  import opened Prelude
  import opened VariantGrid
  import opened VariantRules
  import opened ProductRows
  import opened ProductAxes

  datatype Status = DRAFT | ACTIVE | INACTIVE | SUSPENDED

  datatype Variant = Variant(
    id: nat, signature: string, choiceIds: seq<nat>, price: nat, listPrice: Option<nat>, limit: Option<nat>,
    stock: nat, isActive: bool, deleted: bool)

  datatype Product = Product(
    name: string, status: Status, minPrice: Option<nat>, version: nat, axes: seq<StoredAxis>, variants: seq<Variant>,
        deleted: bool)

  /** What a caller may say of one combination; an outer `None` leaves the column alone. */
  datatype Detail = Detail(
    price: Option<nat>, listPrice: Option<Option<nat>>, stock: Option<nat>, limit: Option<Option<nat>>,
        isActive: Option<bool>)

  datatype Defaults = Defaults(price: nat, listPrice: Option<nat>, stock: Option<nat>, limit: Option<nat>)

  type VariantOverride = Override<Detail>
  type VariantPlan = Plan<Detail>

  datatype Error =
    | NotFound | VersionConflict | AttributesRefused | AxesChanged | PlanRefused(issues: seq<Issue>)
    | ListPriceBelowPrice | DefaultsMissing | NotSellable

  // ----------------------------------------------------------- one variant

  /** The table's check: a struck-through price is at or above the price. */
  predicate PriceOk(v: Variant) { v.listPrice.None? || v.listPrice.value >= v.price }

  predicate Sellable(v: Variant) { !v.deleted && v.isActive }

  /** The fields an override names, and no others. */
  function Changed(v: Variant, d: Detail): Variant {
    v.(price := d.price.GetOr(v.price), listPrice := d.listPrice.GetOr(v.listPrice), stock := d.stock.GetOr(v.stock),
       limit := d.limit.GetOr(v.limit), isActive := d.isActive.GetOr(v.isActive))
  }

  /** `x ?? y`: a null gives way too. */
  function OrElse<T>(x: Option<Option<T>>, y: Option<T>): Option<T> {
    if x.Some? && x.value.Some? then x.value else y
  }

  /** A plan with the ids of its combination and the signature they make. */
  datatype Keyed = Keyed(plan: VariantPlan, ids: seq<nat>, signature: string)

  function Born(keyed: Keyed, defaults: Defaults, id: nat): Variant {
    var d := match keyed.plan.override case None => Detail(None, None, None, None, None) case Some(o) => o.detail;
    Variant(id, keyed.signature, keyed.ids, d.price.GetOr(defaults.price), OrElse(d.listPrice, defaults.listPrice),
            OrElse(d.limit, defaults.limit), d.stock.GetOr(defaults.stock.GetOr(0)), d.isActive.GetOr(true), false)
  }

  // ------------------------------------------------------ laying a plan over

  function KeyAll(current: seq<StoredAxis>, plans: seq<VariantPlan>): (keyed: seq<Keyed>)
    ensures |keyed| == |plans|
  {
    seq(|plans|, k requires 0 <= k < |plans| =>
      var ids := ValueIdsOf(current, plans[k].combination);
      Keyed(plans[k], ids, SignatureOf(ids)))
  }

  /** The plan whose combination signs as `signature`. */
  function PlanFor(keyed: seq<Keyed>, signature: string): Option<VariantPlan> {
    if keyed == [] then None
    else if keyed[0].signature == signature then Some(keyed[0].plan)
    else PlanFor(keyed[1..], signature)
  }

  /** A live variant takes its plan's override; one that no plan reaches is switched off. */
  function Overlaid(v: Variant, plan: Option<VariantPlan>): Variant {
    if v.deleted then v
    else match plan
      case None => v.(isActive := false)
      case Some(p) => if p.override.None? then v else Changed(v, p.override.value.detail)
  }

  function OverlaidAll(variants: seq<Variant>, keyed: seq<Keyed>): (after: seq<Variant>)
    ensures |after| == |variants|
  {
    seq(|variants|, k requires 0 <= k < |variants| => Overlaid(variants[k], PlanFor(keyed, variants[k].signature)))
  }

  function LiveSignatures(variants: seq<Variant>): set<string> { set v | v in variants && !v.deleted :: v.signature }

  /** The plans no live variant answers for. */
  function Unmet(keyed: seq<Keyed>, held: set<string>): seq<Keyed> {
    if keyed == [] then [] else (if keyed[0].signature in held then [] else [keyed[0]]) + Unmet(keyed[1..], held)
  }

  function Births(keyed: seq<Keyed>, defaults: Defaults, next: nat): (born: seq<Variant>)
    ensures |born| == |keyed|
  {
    seq(|keyed|, k requires 0 <= k < |keyed| => Born(keyed[k], defaults, next + k))
  }

  predicate AllPricesOk(variants: seq<Variant>) { forall k :: 0 <= k < |variants| ==> PriceOk(variants[k]) }

  predicate SameAxes(stored: seq<StoredAxis>, given: seq<Axis>) {
    |stored| == |given| && forall i :: 0 <= i < |stored| ==> stored[i].name == given[i].name
  }

  /** The variants after the plans are laid over them, and the next free id; `next` is past the new choices. */
  function Lay(variants: seq<Variant>, keyed: seq<Keyed>, defaults: Option<Defaults>,
               next: nat): Result<(seq<Variant>, nat), Error> {
    var overlaid := OverlaidAll(variants, keyed);
    var unmet := Unmet(keyed, LiveSignatures(variants));
    if !AllPricesOk(overlaid) then Err(ListPriceBelowPrice)
    else if unmet == [] then Ok((overlaid, next))
    else if defaults.None? then Err(DefaultsMissing)
    else
      var born := Births(unmet, defaults.value, next);
      if !AllPricesOk(born) then Err(ListPriceBelowPrice) else Ok((overlaid + born, next + |born|))
  }

  /** Bringing axes and variants in line with a request over `axes`. */
  function Revise(p: Product, next: nat, max: nat, axes: seq<Axis>, overrides: seq<VariantOverride>,
                  defaults: Option<Defaults>)
    : Result<(Product, nat), Error>
    requires |p.axes| == |axes|
  {
    match PlanVariants(axes, overrides, max)
    case Err(issues) => Err(PlanRefused(issues))
    case Ok(plans) =>
      match Lay(p.variants, KeyAll(AddAll(p.axes, axes, next), plans), defaults, NextAt(p.axes, axes, next, |axes|))
      case Err(error) => Err(error)
      case Ok(laid) => Ok((p.(axes := ReviseAll(p.axes, axes, next), variants := laid.0), laid.1))
  }

  // -------------------------------------------------------- what always holds

  /** A live variant carries exactly these ids. */
  ghost predicate HasLive(variants: seq<Variant>, ids: seq<nat>) {
    exists k :: 0 <= k < |variants| && !variants[k].deleted && variants[k].choiceIds == ids
  }

  /** The ids are those of a combination now on offer. */
  ghost predicate InGrid(stored: seq<StoredAxis>, ids: seq<nat>) {
    exists c :: Offered(stored, c) && IdsFor(stored, c) == ids
  }

  ghost predicate SoldInGrid(stored: seq<StoredAxis>, v: Variant) { Sellable(v) ==> InGrid(stored, v.choiceIds) }

  ghost predicate VariantValid(stored: seq<StoredAxis>, next: nat, v: Variant) {
    OneEach(stored, v.choiceIds) && v.signature == SignatureOf(v.choiceIds) && PriceOk(v) && v.id < next
  }

  /** No two live variants answer for one combination, and no two rows share an id. */
  ghost predicate Apart(variants: seq<Variant>) {
    forall k, l {:trigger ApartPair(variants[k], variants[l])} :: 0 <= k < l < |variants| ==>
        ApartPair(variants[k], variants[l])
  }

  ghost predicate ApartPair(v: Variant, w: Variant) {
    v.id != w.id && (v.deleted || w.deleted || v.signature != w.signature)
  }

  /** Every combination on offer has a live variant. */
  ghost predicate Covered(stored: seq<StoredAxis>, variants: seq<Variant>) {
    forall c {:trigger Offered(stored, c)} :: Offered(stored, c) ==> HasLive(variants, IdsFor(stored, c))
  }

  /** The grid invariant. */
  ghost predicate GridValid(stored: seq<StoredAxis>, variants: seq<Variant>, next: nat) {
    && AxesValid(stored, next)
    && (forall k {:trigger VariantValid(stored, next, variants[k])} ::
            0 <= k < |variants| ==> VariantValid(stored, next, variants[k]))
    && Apart(variants)
    && Covered(stored, variants)
    && (forall k {:trigger SoldInGrid(stored, variants[k])} :: 0 <= k < |variants| ==> SoldInGrid(stored, variants[k]))
  }

  // ------------------------------------------------------------------ lemmas

  /** With distinct signatures: a combination's plan is the one found by its signature. */
  lemma {:induction false} PlanForAt(keyed: seq<Keyed>, k: nat)
    requires k < |keyed| && SignApart(keyed)
    ensures PlanFor(keyed, keyed[k].signature) == Some(keyed[k].plan)
  {
    if k > 0 {
      assert SignApart(keyed[1..]);
      PlanForAt(keyed[1..], k - 1);
    }
  }

  lemma {:induction false} PlanFound(keyed: seq<Keyed>, signature: string) returns (k: nat)
    requires PlanFor(keyed, signature).Some?
    ensures k < |keyed| && keyed[k].plan == PlanFor(keyed, signature).value && keyed[k].signature == signature
  {
    if keyed[0].signature == signature {
      k := 0;
    } else {
      k := PlanFound(keyed[1..], signature);
      k := k + 1;
    }
  }

  lemma {:induction false} UnmetMembers(keyed: seq<Keyed>, held: set<string>, p: Keyed)
    ensures p in Unmet(keyed, held) <==> p in keyed && p.signature !in held
  {
    if keyed != [] {
      UnmetMembers(keyed[1..], held, p);
      assert keyed == [keyed[0]] + keyed[1..];
    }
  }

  ghost predicate SignApart(keyed: seq<Keyed>) {
    forall k, l :: 0 <= k < l < |keyed| ==> keyed[k].signature != keyed[l].signature
  }

  lemma {:induction false} UnmetApart(keyed: seq<Keyed>, held: set<string>)
    requires SignApart(keyed)
    ensures SignApart(Unmet(keyed, held))
  {
    if keyed != [] {
      var rest := keyed[1..];
      assert SignApart(rest);
      UnmetApart(rest, held);
      var unmet := Unmet(rest, held);
      forall l | 0 <= l < |unmet| ensures unmet[l].signature != keyed[0].signature {
        assert unmet[l] in unmet;
        UnmetMembers(rest, held, unmet[l]);
        var m :| 0 <= m < |rest| && rest[m] == unmet[l];
      }
    }
  }

  /** What the plans have to do with the axes they will be stored under. */
  ghost predicate PlansGrid(after: seq<StoredAxis>, keyed: seq<Keyed>) {
    && SignApart(keyed)
    && (forall p :: p in keyed ==> KeyedRight(after, p))
    && (forall c {:trigger Offered(after, c)} :: Offered(after, c) ==> Planned(keyed, c))
  }

  ghost predicate KeyedRight(after: seq<StoredAxis>, p: Keyed) {
    Offered(after, p.plan.combination) && p.ids == IdsFor(after, p.plan.combination)
    && p.signature == SignatureOf(p.ids)
  }

  ghost predicate Planned(keyed: seq<Keyed>, c: Combination) {
    exists k :: 0 <= k < |keyed| && keyed[k].plan.combination == c
  }

  /** A request's plans are the grid of the axes as they will be, and sign apart. */
  lemma {:induction false} PlansAreGrid(stored: seq<StoredAxis>, axes: seq<Axis>, overrides: seq<VariantOverride>,
                                        max: nat, next: nat)
    requires |stored| == |axes| && AxesValid(stored, next) && PlanVariants(axes, overrides, max).Ok?
    ensures ValuesUnique(axes)
    ensures AxesValid(ReviseAll(stored, axes, next), NextAt(stored, axes, next, |axes|))
    ensures PlansGrid(ReviseAll(stored, axes, next),
                      KeyAll(AddAll(stored, axes, next), PlanVariants(axes, overrides, max).value))
  {
    var after, plans := ReviseAll(stored, axes, next), PlanVariants(axes, overrides, max).value;
    AcceptedIff(axes, overrides, max);
    RevisedAxesValid(stored, axes, next);
    PlansAreTheGrid(axes, overrides, max);
    KeyedGrid(stored, axes, plans, next);
  }

  /** Plans that list the grid, each once, are keyed as the grid of the axes as they will be. */
  lemma {:induction false} KeyedGrid(stored: seq<StoredAxis>, axes: seq<Axis>, plans: seq<VariantPlan>, next: nat)
    requires |stored| == |axes| && AxesValid(stored, next) && ValuesUnique(axes)
    requires AxesValid(ReviseAll(stored, axes, next), NextAt(stored, axes, next, |axes|))
    requires forall c :: IsCombination(axes, c) <==> exists k :: 0 <= k < |plans| && plans[k].combination == c
    requires forall k, l :: 0 <= k < l < |plans| ==> plans[k].combination != plans[l].combination
    ensures PlansGrid(ReviseAll(stored, axes, next), KeyAll(AddAll(stored, axes, next), plans))
  {
    var after, keyed := ReviseAll(stored, axes, next), KeyAll(AddAll(stored, axes, next), plans);
    forall k | 0 <= k < |keyed| ensures KeyedRight(after, keyed[k]) {
      assert IsCombination(axes, plans[k].combination);
      LookupIsIdsFor(stored, axes, next, plans[k].combination);
    }
    forall k, l | 0 <= k < l < |keyed| ensures keyed[k].signature != keyed[l].signature {
      assert plans[k].combination != plans[l].combination;
      KeyedApart(after, keyed[k], keyed[l]);
    }
    forall c | Offered(after, c) ensures Planned(keyed, c) {
      RevisedOffered(stored, axes, next, c);
      var k :| 0 <= k < |plans| && plans[k].combination == c;
      assert keyed[k].plan.combination == c;
    }
  }

  lemma {:induction false} KeyedApart(after: seq<StoredAxis>, p: Keyed, q: Keyed)
    requires AxesApart(after) && (forall i :: 0 <= i < |after| ==> AxisValid(after[i]))
    requires KeyedRight(after, p) && KeyedRight(after, q) && p.plan.combination != q.plan.combination
    ensures p.signature != q.signature
  {
    CombinationsSignApart(after, p.plan.combination, q.plan.combination);
  }

  lemma {:induction false} OverlaidKeeps(v: Variant, plan: Option<VariantPlan>)
    ensures var w := Overlaid(v, plan);
            w.id == v.id && w.signature == v.signature && w.choiceIds == v.choiceIds && w.deleted == v.deleted
  {
  }

  /** A variant with a planned signature carries that combination's ids. */
  lemma {:induction false} SignedIds(after: seq<StoredAxis>, p: Keyed, v: Variant)
    requires AxesApart(after) && KeyedRight(after, p)
    requires OneEach(after, v.choiceIds) && v.signature == SignatureOf(v.choiceIds) == p.signature
    ensures v.choiceIds == IdsFor(after, p.plan.combination)
  {
    IdsForOneEach(after, p.plan.combination);
    SignatureTells(after, v.choiceIds, p.ids);
  }

  /** The variants before a plan is laid over them, judged against the axes as they will be. */
  ghost predicate ReadyFor(after: seq<StoredAxis>, variants: seq<Variant>, next: nat) {
    && AxesValid(after, next)
    && (forall k {:trigger VariantValid(after, next, variants[k])} :: 0 <= k < |variants| ==>
                                                                          VariantValid(after, next, variants[k]))
    && Apart(variants)
  }

  /** What a successful laying is: the old variants overlaid, then one new variant per unmet plan. */
  ghost predicate LaidAs(laid: seq<Variant>, variants: seq<Variant>, keyed: seq<Keyed>, defaults: Option<Defaults>,
                         next: nat) {
    var unmet := Unmet(keyed, LiveSignatures(variants));
    && |laid| == |variants| + |unmet| && (unmet != [] ==> defaults.Some?)
    && (forall k :: 0 <= k < |variants| ==> laid[k] == Overlaid(variants[k], PlanFor(keyed, variants[k].signature)))
    && (forall m :: 0 <= m < |unmet| ==> defaults.Some?
                                         && laid[|variants| + m] == Born(unmet[m], defaults.value, next + m))
    && AllPricesOk(laid)
  }

  lemma {:induction false} LaidAt(variants: seq<Variant>, keyed: seq<Keyed>, defaults: Option<Defaults>, next: nat)
    requires Lay(variants, keyed, defaults, next).Ok?
    ensures LaidAs(Lay(variants, keyed, defaults, next).value.0, variants, keyed, defaults, next)
    ensures Lay(variants, keyed, defaults, next).value.1 == next + |Unmet(keyed, LiveSignatures(variants))|
  {
  }

  lemma {:induction false} LaidCovers(after: seq<StoredAxis>, keyed: seq<Keyed>, variants: seq<Variant>,
                                      defaults: Option<Defaults>, next: nat, c: Combination)
    requires ReadyFor(after, variants, next) && PlansGrid(after, keyed) && Lay(variants, keyed, defaults, next).Ok?
    requires Offered(after, c)
    ensures HasLive(Lay(variants, keyed, defaults, next).value.0, IdsFor(after, c))
  {
    var laid := Lay(variants, keyed, defaults, next).value.0;
    LaidAt(variants, keyed, defaults, next);
    assert Planned(keyed, c);
    var k :| 0 <= k < |keyed| && keyed[k].plan.combination == c;
    var p := keyed[k];
    assert KeyedRight(after, p);
    if p.signature in LiveSignatures(variants) {
      var m :| 0 <= m < |variants| && !variants[m].deleted && variants[m].signature == p.signature;
      assert VariantValid(after, next, variants[m]);
      SignedIds(after, p, variants[m]);
      OverlaidKeeps(variants[m], PlanFor(keyed, variants[m].signature));
      assert laid[m].choiceIds == IdsFor(after, c) && !laid[m].deleted;
    } else {
      var unmet := Unmet(keyed, LiveSignatures(variants));
      UnmetMembers(keyed, LiveSignatures(variants), p);
      var m :| 0 <= m < |unmet| && unmet[m] == p;
      assert laid[|variants| + m].choiceIds == IdsFor(after, c);
    }
  }

  /** Each laid variant: valid, and in the grid when it can be sold. */
  lemma {:induction false} LaidVariant(after: seq<StoredAxis>, keyed: seq<Keyed>, variants: seq<Variant>,
                                       defaults: Option<Defaults>, next: nat, k: nat)
    requires ReadyFor(after, variants, next) && PlansGrid(after, keyed) && Lay(variants, keyed, defaults, next).Ok?
    requires k < |Lay(variants, keyed, defaults, next).value.0|
    ensures var laid := Lay(variants, keyed, defaults, next).value;
            VariantValid(after, laid.1, laid.0[k]) && SoldInGrid(after, laid.0[k])
  {
    var laid := Lay(variants, keyed, defaults, next).value;
    LaidAt(variants, keyed, defaults, next);
    assert PriceOk(laid.0[k]);
    if k < |variants| {
      var v := variants[k];
      assert VariantValid(after, next, v);
      OverlaidKeeps(v, PlanFor(keyed, v.signature));
      if Sellable(laid.0[k]) {
        var j := PlanFound(keyed, v.signature);
        assert KeyedRight(after, keyed[j]);
        SignedIds(after, keyed[j], v);
        assert InGrid(after, v.choiceIds);
      }
    } else {
      var unmet := Unmet(keyed, LiveSignatures(variants));
      var p := unmet[k - |variants|];
      assert p in unmet;
      UnmetMembers(keyed, LiveSignatures(variants), p);
      assert KeyedRight(after, p);
      IdsForOneEach(after, p.plan.combination);
      assert laid.0[k] == Born(p, defaults.value, next + (k - |variants|));
      assert InGrid(after, p.ids);
    }
  }

  lemma {:induction false} OldApart(variants: seq<Variant>, keyed: seq<Keyed>, k: nat, l: nat)
    requires Apart(variants) && k < l < |variants|
    ensures ApartPair(Overlaid(variants[k], PlanFor(keyed, variants[k].signature)),
                      Overlaid(variants[l], PlanFor(keyed, variants[l].signature)))
  {
    OverlaidKeeps(variants[k], PlanFor(keyed, variants[k].signature));
    OverlaidKeeps(variants[l], PlanFor(keyed, variants[l].signature));
    assert ApartPair(variants[k], variants[l]);
  }

  lemma {:induction false} NewApartFromOld(variants: seq<Variant>, keyed: seq<Keyed>, defaults: Defaults, k: nat,
                                           m: nat, id: nat)
    requires k < |variants| && variants[k].id < id && m < |Unmet(keyed, LiveSignatures(variants))|
    ensures ApartPair(Overlaid(variants[k], PlanFor(keyed, variants[k].signature)),
                      Born(Unmet(keyed, LiveSignatures(variants))[m], defaults, id))
  {
    var unmet := Unmet(keyed, LiveSignatures(variants));
    OverlaidKeeps(variants[k], PlanFor(keyed, variants[k].signature));
    assert unmet[m] in unmet && variants[k] in variants;
    UnmetMembers(keyed, LiveSignatures(variants), unmet[m]);
  }

  lemma {:induction false} NewApart(keyed: seq<Keyed>, held: set<string>, defaults: Defaults, m: nat, o: nat, next: nat)
    requires SignApart(keyed) && m < o < |Unmet(keyed, held)|
    ensures ApartPair(Born(Unmet(keyed, held)[m], defaults, next + m), Born(Unmet(keyed, held)[o], defaults, next + o))
  {
    UnmetApart(keyed, held);
  }

  lemma {:induction false} LaidApart(after: seq<StoredAxis>, keyed: seq<Keyed>, variants: seq<Variant>,
                                     defaults: Option<Defaults>, next: nat,
                                     laid: seq<Variant>, k: nat, l: nat)
    requires ReadyFor(after, variants, next) && SignApart(keyed) && LaidAs(laid, variants, keyed, defaults, next)
    requires k < l < |laid|
    ensures ApartPair(laid[k], laid[l])
  {
    var n := |variants|;
    if l < n {
      OldApart(variants, keyed, k, l);
    } else if k < n {
      assert VariantValid(after, next, variants[k]);
      NewApartFromOld(variants, keyed, defaults.value, k, l - n, next + (l - n));
      assert laid[n + (l - n)] == Born(Unmet(keyed, LiveSignatures(variants))[l - n], defaults.value, next + (l - n));
    } else {
      BornApart(keyed, variants, defaults, next, laid, k - n, l - n);
    }
  }

  lemma {:induction false} BornApart(keyed: seq<Keyed>, variants: seq<Variant>, defaults: Option<Defaults>, next: nat,
                                     laid: seq<Variant>,
                                     k: nat, l: nat)
    requires SignApart(keyed) && LaidAs(laid, variants, keyed, defaults, next) && k < l < |laid| - |variants|
    ensures ApartPair(laid[|variants| + k], laid[|variants| + l])
  {
    NewApart(keyed, LiveSignatures(variants), defaults.value, k, l, next);
    assert laid[|variants| + k] == Born(Unmet(keyed, LiveSignatures(variants))[k], defaults.value, next + k);
    assert laid[|variants| + l] == Born(Unmet(keyed, LiveSignatures(variants))[l], defaults.value, next + l);
  }

  /** Laying the plans of a grid over the variants establishes the grid invariant. */
  lemma {:induction false} LaidGridValid(after: seq<StoredAxis>, keyed: seq<Keyed>, variants: seq<Variant>,
                                         defaults: Option<Defaults>, next: nat)
    requires ReadyFor(after, variants, next) && PlansGrid(after, keyed) && Lay(variants, keyed, defaults, next).Ok?
    ensures var laid := Lay(variants, keyed, defaults, next).value;
            next <= laid.1 && GridValid(after, laid.0, laid.1)
  {
    var laid := Lay(variants, keyed, defaults, next).value;
    LaidAt(variants, keyed, defaults, next);
    AxesValidLater(after, next, laid.1);
    forall k | 0 <= k < |laid.0|
      ensures VariantValid(after, laid.1, laid.0[k]) && SoldInGrid(after, laid.0[k])
    {
      LaidVariant(after, keyed, variants, defaults, next, k);
    }
    forall k, l | 0 <= k < l < |laid.0| ensures ApartPair(laid.0[k], laid.0[l]) {
      LaidApart(after, keyed, variants, defaults, next, laid.0, k, l);
    }
    forall c | Offered(after, c) ensures HasLive(laid.0, IdsFor(after, c)) {
      LaidCovers(after, keyed, variants, defaults, next, c);
    }
  }

  /** A revision re-establishes the grid invariant over the requested axes. */
  lemma {:induction false} ReviseGridValid(p: Product, next: nat, max: nat, axes: seq<Axis>,
                                           overrides: seq<VariantOverride>, defaults: Option<Defaults>)
    requires |p.axes| == |axes| && GridValid(p.axes, p.variants, next)
    requires Revise(p, next, max, axes, overrides, defaults).Ok?
    ensures var (after, next') := Revise(p, next, max, axes, overrides, defaults).value;
            && next <= next'
            && GridValid(after.axes, after.variants, next')
            && GridCount(AxesOf(after.axes)) == GridCount(axes) <= max
  {
    var mid := NextAt(p.axes, axes, next, |axes|);
    AcceptedIff(axes, overrides, max);
    PlansAreGrid(p.axes, axes, overrides, max, next);
    NextMonotone(p.axes, axes, next, 0, |axes|);
    RevisedProduct(p.axes, axes, next);
    var after := ReviseAll(p.axes, axes, next);
    forall k | 0 <= k < |p.variants| ensures VariantValid(after, mid, p.variants[k]) {
      assert VariantValid(p.axes, next, p.variants[k]);
      OneEachKept(p.axes, axes, next, p.variants[k].choiceIds);
    }
    LaidGridValid(after, KeyAll(AddAll(p.axes, axes, next), PlanVariants(axes, overrides, max).value), p.variants,
                  defaults, mid);
  }

  /** Exactly one: no two live variants answer for one combination. */
  lemma {:induction false} OnlyOneLive(stored: seq<StoredAxis>, variants: seq<Variant>, next: nat, k: nat, l: nat)
    requires GridValid(stored, variants, next) && k < l < |variants|
    ensures !(!variants[k].deleted && !variants[l].deleted && variants[k].choiceIds == variants[l].choiceIds)
  {
    assert VariantValid(stored, next, variants[k]) && VariantValid(stored, next, variants[l]);
    assert ApartPair(variants[k], variants[l]);
  }

  // ------------------------------------------------------ what a revision means

  /** The plans of a revision, with their ids and signatures. */
  function KeyedPlans(p: Product, next: nat, max: nat, axes: seq<Axis>, overrides: seq<VariantOverride>): seq<Keyed>
    requires |p.axes| == |axes| && PlanVariants(axes, overrides, max).Ok?
  {
    KeyAll(AddAll(p.axes, axes, next), PlanVariants(axes, overrides, max).value)
  }

  /** Each plan carries the override its combination's key finds. */
  lemma {:induction false} PlanCarries(p: Product, next: nat, max: nat, axes: seq<Axis>,
                                       overrides: seq<VariantOverride>, k: nat)
    requires |p.axes| == |axes| && PlanVariants(axes, overrides, max).Ok?
    requires k < |KeyedPlans(p, next, max, axes, overrides)|
    ensures var plan := KeyedPlans(p, next, max, axes, overrides)[k].plan;
            plan.override == OverrideFor(overrides, CombinationKeyOf(plan.combination))
  {
  }

  /** The plan found by the signature of a combination on offer is that combination's. */
  lemma {:induction false} PlanOf(after: seq<StoredAxis>, keyed: seq<Keyed>, c: Combination) returns (j: nat)
    requires PlansGrid(after, keyed) && Offered(after, c)
    ensures j < |keyed| && keyed[j].plan.combination == c
    ensures PlanFor(keyed, SignatureOf(IdsFor(after, c))) == Some(keyed[j].plan)
  {
    assert Planned(keyed, c);
    j :| 0 <= j < |keyed| && keyed[j].plan.combination == c;
    assert KeyedRight(after, keyed[j]);
    PlanForAt(keyed, j);
  }

  /** Only combinations on offer have a plan. */
  lemma {:induction false} PlannedInGrid(after: seq<StoredAxis>, keyed: seq<Keyed>, v: Variant)
    requires AxesApart(after) && PlansGrid(after, keyed) && OneEach(after, v.choiceIds)
    requires v.signature == SignatureOf(v.choiceIds)
    ensures PlanFor(keyed, v.signature).Some? ==> InGrid(after, v.choiceIds)
  {
    if PlanFor(keyed, v.signature).Some? {
      var j := PlanFound(keyed, v.signature);
      assert KeyedRight(after, keyed[j]);
      SignedIds(after, keyed[j], v);
      assert InGrid(after, v.choiceIds);
    }
  }

  /**
   * Field by field: what an override names is the override's, everything else is as it was. A named list price or limit
   * may be none, which takes it away.
   */
  ghost predicate TakesOver(before: Variant, after: Variant, override: Option<VariantOverride>) {
    && after.id == before.id && after.signature == before.signature && after.choiceIds == before.choiceIds
    && after.deleted == before.deleted
    && (if override.Some? && override.value.detail.price.Some? then after.price == override.value.detail.price.value
        else after.price == before.price)
    && (if override.Some? && override.value.detail.listPrice.Some?
        then after.listPrice == override.value.detail.listPrice.value else after.listPrice == before.listPrice)
    && (if override.Some? && override.value.detail.limit.Some? then after.limit == override.value.detail.limit.value
        else after.limit == before.limit)
    && (if override.Some? && override.value.detail.stock.Some? then after.stock == override.value.detail.stock.value
        else after.stock == before.stock)
    && (if override.Some? && override.value.detail.isActive.Some?
        then after.isActive == override.value.detail.isActive.value else after.isActive == before.isActive)
  }

  lemma {:induction false} OverlaidTakesOver(v: Variant, plan: VariantPlan)
    requires !v.deleted
    ensures TakesOver(v, Overlaid(v, Some(plan)), plan.override)
  {
  }

  /** A live variant of a combination still on offer takes the override for it, and nothing else changes. */
  lemma {:induction false} KeptVariant(p: Product, next: nat, max: nat, axes: seq<Axis>,
                                       overrides: seq<VariantOverride>, defaults: Option<Defaults>,
                    k: nat, c: Combination)
    requires |p.axes| == |axes| && GridValid(p.axes, p.variants, next)
    requires Revise(p, next, max, axes, overrides, defaults).Ok?
    requires k < |p.variants| && !p.variants[k].deleted && IsCombination(axes, c)
    requires Offered(ReviseAll(p.axes, axes, next), c)
    requires p.variants[k].choiceIds == IdsFor(ReviseAll(p.axes, axes, next), c)
    ensures var after := Revise(p, next, max, axes, overrides, defaults).value.0;
            && k < |after.variants|
            && TakesOver(p.variants[k], after.variants[k], OverrideFor(overrides, CombinationKeyOf(c)))
  {
    var keyed := KeyedPlans(p, next, max, axes, overrides);
    PlansAreGrid(p.axes, axes, overrides, max, next);
    LaidAt(p.variants, keyed, defaults, NextAt(p.axes, axes, next, |axes|));
    var j := PlanOf(ReviseAll(p.axes, axes, next), keyed, c);
    assert VariantValid(p.axes, next, p.variants[k]);
    PlanCarries(p, next, max, axes, overrides, j);
    OverlaidTakesOver(p.variants[k], keyed[j].plan);
  }

  /** A retired variant is left as it is, whatever is revised. */
  lemma {:induction false} RetiredVariant(p: Product, next: nat, max: nat, axes: seq<Axis>,
                                          overrides: seq<VariantOverride>, defaults: Option<Defaults>, k: nat)
    requires |p.axes| == |axes| && Revise(p, next, max, axes, overrides, defaults).Ok?
    requires k < |p.variants| && p.variants[k].deleted
    ensures var after := Revise(p, next, max, axes, overrides, defaults).value.0;
            k < |after.variants| && after.variants[k] == p.variants[k]
  {
    LaidAt(p.variants, KeyedPlans(p, next, max, axes, overrides), defaults, NextAt(p.axes, axes, next, |axes|));
  }

  /** A live variant whose combination is no longer on offer is switched off, and nothing else changes. */
  lemma {:induction false} OrphanedVariant(p: Product, next: nat, max: nat, axes: seq<Axis>,
                                           overrides: seq<VariantOverride>, defaults: Option<Defaults>, k: nat)
    requires |p.axes| == |axes| && GridValid(p.axes, p.variants, next)
    requires Revise(p, next, max, axes, overrides, defaults).Ok?
    requires k < |p.variants| && !p.variants[k].deleted
    requires !InGrid(ReviseAll(p.axes, axes, next), p.variants[k].choiceIds)
    ensures var after := Revise(p, next, max, axes, overrides, defaults).value.0;
            k < |after.variants| && after.variants[k] == p.variants[k].(isActive := false)
  {
    var keyed, v := KeyedPlans(p, next, max, axes, overrides), p.variants[k];
    var after := ReviseAll(p.axes, axes, next);
    PlansAreGrid(p.axes, axes, overrides, max, next);
    LaidAt(p.variants, keyed, defaults, NextAt(p.axes, axes, next, |axes|));
    assert VariantValid(p.axes, next, v);
    OneEachKept(p.axes, axes, next, v.choiceIds);
    PlannedInGrid(after, keyed, v);
  }

  /** The new variant of an unmet plan: its combination's ids, the defaults, and the override over them. */
  ghost predicate BornFrom(v: Variant, ids: seq<nat>, found: Option<VariantOverride>, defaults: Defaults) {
    && v.choiceIds == ids && !v.deleted
    && (match found
        case None =>
          && v.price == defaults.price && v.listPrice == defaults.listPrice && v.limit == defaults.limit && v.isActive
          && (if defaults.stock.Some? then v.stock == defaults.stock.value else v.stock == 0)
        case Some(o) =>
          && (if o.detail.price.Some? then v.price == o.detail.price.value else v.price == defaults.price)
          && (if o.detail.listPrice.Some? && o.detail.listPrice.value.Some? then v.listPrice == o.detail.listPrice.value
              else v.listPrice == defaults.listPrice)
          && (if o.detail.limit.Some? && o.detail.limit.value.Some? then v.limit == o.detail.limit.value
              else v.limit == defaults.limit)
          && (if o.detail.stock.Some? then v.stock == o.detail.stock.value
              else if defaults.stock.Some? then v.stock == defaults.stock.value else v.stock == 0)
          && (if o.detail.isActive.Some? then v.isActive == o.detail.isActive.value else v.isActive))
  }

  /** A new variant answers for a combination no live one answered for, and carries its override over the defaults. */
  lemma {:induction false} AddedVariant(p: Product, next: nat, max: nat, axes: seq<Axis>,
                                        overrides: seq<VariantOverride>,
                                        defaults: Option<Defaults>, k: nat)
    returns (c: Combination)
    requires |p.axes| == |axes| && AxesValid(p.axes, next)
    requires (forall j :: 0 <= j < |p.variants| ==> VariantValid(p.axes, next, p.variants[j]))
    requires Revise(p, next, max, axes, overrides, defaults).Ok?
    requires |p.variants| <= k < |Revise(p, next, max, axes, overrides, defaults).value.0.variants|
    ensures IsCombination(axes, c) && Offered(ReviseAll(p.axes, axes, next), c)
    ensures !HasLive(p.variants, IdsFor(ReviseAll(p.axes, axes, next), c)) && defaults.Some?
    ensures BornFrom(Revise(p, next, max, axes, overrides, defaults).value.0.variants[k],
                     IdsFor(ReviseAll(p.axes, axes, next), c),
                     OverrideFor(overrides, CombinationKeyOf(c)), defaults.value)
  {
    PlansAreGrid(p.axes, axes, overrides, max, next);
    var keyed := KeyedPlans(p, next, max, axes, overrides);
    var mid := NextAt(p.axes, axes, next, |axes|);
    var laid := Lay(p.variants, keyed, defaults, mid);
    RevisedBy(p, next, max, axes, overrides, defaults, laid);
    var j := LaidNew(ReviseAll(p.axes, axes, next), keyed, p.variants, defaults, mid, k);
    c := keyed[j].plan.combination;
    RevisedOffered(p.axes, axes, next, c);
    PlanCarries(p, next, max, axes, overrides, j);
    NoLiveWith(p, next, keyed[j].ids, keyed[j].signature);
  }

  /** A revision that lays its plans is the new axes with the laid variants. */
  lemma {:induction false} RevisedBy(p: Product, next: nat, max: nat, axes: seq<Axis>, overrides: seq<VariantOverride>,
                                     defaults: Option<Defaults>,
                                     laid: Result<(seq<Variant>, nat), Error>)
    requires |p.axes| == |axes| && PlanVariants(axes, overrides, max).Ok?
    requires laid == Lay(p.variants, KeyedPlans(p, next, max, axes, overrides), defaults,
                         NextAt(p.axes, axes, next, |axes|))
    ensures Revise(p, next, max, axes, overrides, defaults)
         == (match laid
             case Err(error) => Err(error)
             case Ok(made) => Ok((p.(axes := ReviseAll(p.axes, axes, next), variants := made.0), made.1)))
  {
  }

  lemma {:induction false} LaidNew(after: seq<StoredAxis>, keyed: seq<Keyed>, variants: seq<Variant>,
                                   defaults: Option<Defaults>, next: nat, k: nat)
    returns (j: nat)
    requires PlansGrid(after, keyed) && Lay(variants, keyed, defaults, next).Ok?
    requires |variants| <= k < |Lay(variants, keyed, defaults, next).value.0|
    ensures j < |keyed| && KeyedRight(after, keyed[j]) && keyed[j].signature !in LiveSignatures(variants)
    ensures defaults.Some?
    ensures BornFrom(Lay(variants, keyed, defaults, next).value.0[k], IdsFor(after, keyed[j].plan.combination),
                     keyed[j].plan.override, defaults.value)
  {
    LaidAt(variants, keyed, defaults, next);
    var unmet := Unmet(keyed, LiveSignatures(variants));
    var m := k - |variants|;
    assert unmet[m] in unmet;
    UnmetMembers(keyed, LiveSignatures(variants), unmet[m]);
    j :| 0 <= j < |keyed| && keyed[j] == unmet[m];
    assert KeyedRight(after, keyed[j]);
    assert Lay(variants, keyed, defaults, next).value.0[k] == Born(unmet[m], defaults.value, next + m);
  }

  lemma {:induction false} NoLiveWith(p: Product, next: nat, ids: seq<nat>, signature: string)
    requires forall j :: 0 <= j < |p.variants| ==> VariantValid(p.axes, next, p.variants[j])
    requires signature == SignatureOf(ids) && signature !in LiveSignatures(p.variants)
    ensures !HasLive(p.variants, ids)
  {
    forall k | 0 <= k < |p.variants| && !p.variants[k].deleted ensures p.variants[k].choiceIds != ids {
      assert VariantValid(p.axes, next, p.variants[k]);
      assert p.variants[k] in p.variants;
    }
  }

  /** With unambiguous keys, the override a key finds is the one that names the combination. */
  lemma {:induction false} OverrideNames(axes: seq<Axis>, overrides: seq<VariantOverride>, max: nat, c: Combination)
    requires PlanVariants(axes, overrides, max).Ok? && Unambiguous(axes) && IsCombination(axes, c)
    ensures OverrideFor(overrides, CombinationKeyOf(c)).Some? <==> exists o :: o in overrides && o.optionValues == c
    ensures forall o :: o in overrides && o.optionValues == c ==> OverrideFor(overrides, CombinationKeyOf(c)) == Some(o)
  {
    var plans := PlanVariants(axes, overrides, max).value;
    PlansAreTheGrid(axes, overrides, max);
    OverridesLandOnce(axes, overrides, max);
    var k :| 0 <= k < |plans| && plans[k].combination == c;
    assert plans[k].override == OverrideFor(overrides, CombinationKeyOf(c));
    forall o | o in overrides && o.optionValues == c ensures plans[k].override == Some(o) {
      var i :| 0 <= i < |overrides| && overrides[i] == o;
    }
    if plans[k].override.Some? {
      var i :| 0 <= i < |overrides| && overrides[i] == plans[k].override.value;
      assert overrides[i].optionValues == c;
    }
  }
}
