/** What each product write leaves, column by column, and which refusal comes when. */
module ProductResults {
  import opened Prelude
  import opened Sorting
  import opened VariantGrid
  import opened VariantRules
  import opened ProductRows
  import opened ProductAxes
  import opened ProductVariants
  import opened ProductWrites

  // ------------------------------------------------------- the bulk change

  /** A listing that may not go on sale: its attributes are refused, or nothing of it can be ordered. */
  ghost predicate HeldBack(s: Store, id: nat, status: Status, refused: set<nat>)
    requires id in s.products
  {
    status == ACTIVE && (id in refused || forall k :: 0 <= k < |s.products[id].variants| ==>
                                                        s.products[id].variants[k].deleted
                                                        || !s.products[id].variants[k].isActive)
  }

  /** The refusal comes from the first listing in lock order that is held back. */
  lemma {:induction false} FirstRefusal(products: map<nat, Product>, ids: seq<nat>, status: Status, refused: set<nat>)
    requires Distinct(ids) && forall id :: id in ids ==> id in products
    ensures SettleEach(products, ids, status, refused).Err? ==>
              exists i :: 0 <= i < |ids| && Refuses(products[ids[i]], ids[i], status, refused)
                          && (forall j :: 0 <= j < i ==> !Refuses(products[ids[j]], ids[j], status, refused))
                          && SettleEach(products, ids, status, refused).error
                             == if ids[i] in refused then AttributesRefused else NotSellable
  {
    if ids != [] && !Refuses(products[ids[0]], ids[0], status, refused) {
      var p := Settle(products[ids[0]], status, 1).value;
      assert ids[0] !in ids[1..];
      FirstRefusal(products[ids[0] := p], ids[1..], status, refused);
      if SettleEach(products, ids, status, refused).Err? {
        var later := products[ids[0] := p];
        var i :| 0 <= i < |ids[1..]| && Refuses(later[ids[1..][i]], ids[1..][i], status, refused)
                 && (forall j :: 0 <= j < i ==> !Refuses(later[ids[1..][j]], ids[1..][j], status, refused))
                 && SettleEach(later, ids[1..], status, refused).error
                    == if ids[1..][i] in refused then AttributesRefused else NotSellable;
        forall j | 0 <= j < i + 1 ensures !Refuses(products[ids[j]], ids[j], status, refused) {
          if j > 0 { assert ids[j] == ids[1..][j - 1]; }
        }
        assert ids[i + 1] == ids[1..][i];
      }
    } else if ids != [] {
      assert Refuses(products[ids[0]], ids[0], status, refused);
    }
  }

  lemma {:induction false} RefusesIff(s: Store, id: nat, status: Status, refused: set<nat>)
    requires id in s.products
    ensures Refuses(s.products[id], id, status, refused) <==> HeldBack(s, id, status, refused)
  {
  }

  /**
   * A bulk change is accepted exactly when every listing named, however often, is live and none is held back. Then each
   * has the status, one version more and its price derived anew, and is otherwise as it was, as is every other row.
   */
  lemma {:induction false} ChangeStatusesExact(s: Store, ids: seq<nat>, status: Status, refused: set<nat>)
    ensures var done := ChangeStatuses(s, ids, status, refused);
            (done.error.None? <==> forall id :: id in ids ==>
               id in s.products && !s.products[id].deleted && !HeldBack(s, id, status, refused))
    ensures ChangeStatuses(s, ids, status, refused).error.None? ==>
              var after := ChangeStatuses(s, ids, status, refused).store;
              && after.next == s.next && after.products.Keys == s.products.Keys
              && (forall id :: id in s.products && id !in ids ==> after.products[id] == s.products[id])
              && (forall id :: id in ids ==> Moved(s.products[id], after.products[id], status))
  {
    var selection := Selection(ids);
    SelectionSorted(ids);
    AllLiveIff(s, ids);
    if AllLive(s, selection) {
      SettleEachMeans(s.products, selection, status, refused);
      forall id | id in ids ensures Refuses(s.products[id], id, status, refused) <==> HeldBack(s, id, status, refused) {
        RefusesIff(s, id, status, refused);
      }
      if ChangeStatuses(s, ids, status, refused).error.None? {
        forall id | id in ids
          ensures Moved(s.products[id], ChangeStatuses(s, ids, status, refused).store.products[id], status) {
          SettleMeans(s.products[id], status, 1);
        }
      }
    }
  }

  /** The row of a listing whose status was changed. */
  ghost predicate Moved(before: Product, after: Product, status: Status) {
    && after.status == status && after.version == before.version + 1 && IsMinPrice(before.variants, after.minPrice)
    && after.name == before.name && after.axes == before.axes && after.variants == before.variants
    && after.deleted == before.deleted
  }

  lemma {:induction false} AllLiveIff(s: Store, ids: seq<nat>)
    ensures AllLive(s, Selection(ids)) <==> forall id :: id in ids ==> id in s.products && !s.products[id].deleted
  {
    SelectionSorted(ids);
    if AllLive(s, Selection(ids)) {
      forall id | id in ids ensures id in s.products && !s.products[id].deleted {
        var i :| 0 <= i < |Selection(ids)| && Selection(ids)[i] == id;
        assert LiveProduct(s, Selection(ids)[i]);
      }
    }
  }

  /**
   * Refused, a bulk change writes nothing. It answers not found when a listing named is not live, and otherwise what
   * holds back the least of those held back, its attributes before its variants.
   */
  lemma {:induction false} ChangeStatusesRefused(s: Store, ids: seq<nat>, status: Status, refused: set<nat>)
    requires ChangeStatuses(s, ids, status, refused).error.Some?
    ensures ChangeStatuses(s, ids, status, refused).store == s
    ensures ChangeStatuses(s, ids, status, refused).error == Some(NotFound)
       <==> exists id :: id in ids && (id !in s.products || s.products[id].deleted)
    ensures (forall id :: id in ids ==> id in s.products && !s.products[id].deleted) ==>
              exists id :: id in ids && HeldBack(s, id, status, refused)
                           && (forall other :: other in ids && HeldBack(s, other, status, refused) ==> id <= other)
                           && ChangeStatuses(s, ids, status, refused).error
                              == Some(if id in refused then AttributesRefused else NotSellable)
  {
    var selection := Selection(ids);
    SelectionSorted(ids);
    AllLiveIff(s, ids);
    if AllLive(s, selection) {
      FirstRefusal(s.products, selection, status, refused);
      var i :| 0 <= i < |selection| && Refuses(s.products[selection[i]], selection[i], status, refused)
               && (forall j :: 0 <= j < i ==> !Refuses(s.products[selection[j]], selection[j], status, refused))
               && SettleEach(s.products, selection, status, refused).error
                  == if selection[i] in refused then AttributesRefused else NotSellable;
      assert selection[i] in ids;
      RefusesIff(s, selection[i], status, refused);
      forall other | other in ids && HeldBack(s, other, status, refused) ensures selection[i] <= other {
        RefusesIff(s, other, status, refused);
        NotEarlier(selection, i, other);
      }
    }
  }

  lemma {:induction false} NotEarlier(ascending: seq<nat>, i: nat, x: nat)
    requires forall k, l :: 0 <= k < l < |ascending| ==> ascending[k] < ascending[l]
    requires i < |ascending| && x in ascending && forall j :: 0 <= j < i ==> ascending[j] != x
    ensures ascending[i] <= x
  {
    var j :| 0 <= j < |ascending| && ascending[j] == x;
    assert i <= j;
  }

  // -------------------------------------------------------------- removal

  /** A removal is written exactly for a live listing, whose row and live variants it retires; all else stays. */
  lemma {:induction false} RemoveExact(s: Store, id: nat)
    ensures Remove(s, id).error == (if id in s.products && !s.products[id].deleted then None else Some(NotFound))
    ensures Remove(s, id).error.None? ==>
              var before, after := s.products[id], Remove(s, id).store;
              && after.next == s.next && after.products == s.products[id := after.products[id]]
              && var p := after.products[id];
                 && p.name == before.name && p.axes == before.axes && p.version == before.version + 1
                 && p.deleted && p.status == INACTIVE && p.minPrice == None && |p.variants| == |before.variants|
                 && forall k :: 0 <= k < |p.variants| ==>
                      p.variants[k] == if before.variants[k].deleted then before.variants[k]
                                       else before.variants[k].(deleted := true, isActive := false)
  {
  }

  // ------------------------------------------------------------- a fresh axis

  lemma {:induction false} AllAdded(values: seq<string>, order: nat, next: nat)
    ensures |Additions(values, [], order, next)| == |values|
    ensures forall k :: 0 <= k < |values| ==>
              Additions(values, [], order, next)[k] == Choice(next + k, values[k], order + k, false)
  {
    if values != [] { AllAdded(values[1..], order + 1, next + 1); }
  }

  lemma {:induction false} NothingFiltered(choices: seq<Choice>)
    requires forall k :: 0 <= k < |choices| ==> !choices[k].deleted
    ensures Filter(IsLive, choices) == choices
  {
    if choices != [] { NothingFiltered(choices[1..]); }
  }

  /** Choices numbered in order are read in that order. */
  lemma {:induction false} AlreadySorted(choices: seq<Choice>)
    requires forall k, l :: 0 <= k < l < |choices| ==> choices[k].sortOrder < choices[l].sortOrder
    ensures Sort(ByPosition, choices) == choices
  {
    if choices != [] {
      AlreadySorted(choices[1..]);
      if |choices| > 1 { assert ByPosition(choices[0], choices[1..][0]); }
    }
  }

  lemma {:induction false} FreshChoices(axis: StoredAxis, values: seq<string>, next: nat)
    requires axis.choices == []
    ensures Revised(axis, values, next).name == axis.name
    ensures Revised(axis, values, next).choices == Additions(values, [], 0, next)
  {
    assert LiveChoices(axis) == [] && ValuesIn(LiveChoices(axis)) == [];
    AllAdded(values, 0, next);
    var added := Additions(values, [], 0, next);
    assert axis.choices + added == added;
    forall k | 0 <= k < |added| ensures RetireUnless(values, added[k]) == added[k] { assert values[k] in values; }
  }

  /** An axis without choices, asked for some, offers them in the order asked. */
  lemma {:induction false} FreshAxis(axis: StoredAxis, values: seq<string>, next: nat)
    requires axis.choices == []
    ensures ValuesIn(LiveChoices(Revised(axis, values, next))) == values
    ensures Revised(axis, values, next).name == axis.name
  {
    FreshChoices(axis, values, next);
    var added := Additions(values, [], 0, next);
    AllAdded(values, 0, next);
    NothingFiltered(added);
    AlreadySorted(added);
  }

  lemma {:induction false} BlankAt(axes: seq<Axis>, next: nat, i: nat)
    requires i < |axes|
    ensures Blank(axes, next)[i].name == axes[i].name && Blank(axes, next)[i].choices == []
  {
    if i > 0 { BlankAt(axes[1..], next + 1, i - 1); }
  }

  /** The options of a created listing read back as they were asked for. */
  lemma {:induction false} FreshAxes(axes: seq<Axis>, first: nat, next: nat)
    ensures AxesOf(ReviseAll(Blank(axes, first), axes, next)) == axes
  {
    var stored := ReviseAll(Blank(axes, first), axes, next);
    forall i | 0 <= i < |axes| ensures AxesOf(stored)[i] == axes[i] {
      BlankAt(axes, first, i);
      FreshAxis(Blank(axes, first)[i], axes[i].values, NextAt(Blank(axes, first), axes, next, i));
    }
  }

  // -------------------------------------------------------------- creation

  /** The prices asked for a combination hold together: no list price, or one at or above the price. */
  predicate PricesFit(override: Option<VariantOverride>, defaults: Defaults) {
    var price := if override.Some? && override.value.detail.price.Some? then override.value.detail.price.value
                 else defaults.price;
    var list := if override.Some? && override.value.detail.listPrice.Some?
    && override.value.detail.listPrice.value.Some?
                then override.value.detail.listPrice.value else defaults.listPrice;
    list.None? || list.value >= price
  }

  /** The combination is asked for as one that can be ordered. */
  predicate AskedActive(override: Option<VariantOverride>) {
    override.Some? && override.value.detail.isActive.Some? ==> override.value.detail.isActive.value
  }

  ghost predicate AllPricesFit(axes: seq<Axis>, overrides: seq<VariantOverride>, defaults: Defaults) {
    forall c {:trigger IsCombination(axes, c)} :: IsCombination(axes, c) ==>
      PricesFit(OverrideFor(overrides, CombinationKeyOf(c)), defaults)
  }

  ghost predicate SomeActive(axes: seq<Axis>, overrides: seq<VariantOverride>) {
    exists c :: IsCombination(axes, c) && AskedActive(OverrideFor(overrides, CombinationKeyOf(c)))
  }

  lemma {:induction false} AllUnmet(keyed: seq<Keyed>)
    ensures Unmet(keyed, {}) == keyed
  {
    if keyed != [] { AllUnmet(keyed[1..]); }
  }

  lemma {:induction false} BornAs(p: Keyed, defaults: Defaults, id: nat)
    ensures PriceOk(Born(p, defaults, id)) <==> PricesFit(p.plan.override, defaults)
    ensures Sellable(Born(p, defaults, id)) <==> AskedActive(p.plan.override)
  {
  }

  lemma {:induction false} LaidFresh(keyed: seq<Keyed>, defaults: Defaults, next: nat)
    ensures Lay([], keyed, Some(defaults), next).Ok? <==> forall k :: 0 <= k < |keyed| ==>
                PricesFit(keyed[k].plan.override, defaults)
    ensures Lay([], keyed, Some(defaults), next).Err? ==>
                Lay([], keyed, Some(defaults), next).error == ListPriceBelowPrice
    ensures Lay([], keyed, Some(defaults), next).Ok? ==>
              Lay([], keyed, Some(defaults), next).value == (Births(keyed, defaults, next), next + |keyed|)
  {
    assert LiveSignatures([]) == {} && OverlaidAll([], keyed) == [];
    AllUnmet(keyed);
    forall k | 0 <= k < |keyed| ensures PriceOk(Births(keyed, defaults, next)[k])
    <==> PricesFit(keyed[k].plan.override, defaults) {
      BornAs(keyed[k], defaults, next + k);
    }
    assert [] + Births(keyed, defaults, next) == Births(keyed, defaults, next);
    assert keyed == [] ==> Births(keyed, defaults, next) == [];
  }

  /** The plans of a request are its combinations with the overrides found for them. */
  ghost predicate PlansOf(keyed: seq<Keyed>, axes: seq<Axis>, overrides: seq<VariantOverride>) {
    && (forall k :: 0 <= k < |keyed| ==> IsPlanOf(keyed[k], axes, overrides))
    && (forall c {:trigger IsCombination(axes, c)} :: IsCombination(axes, c) ==> Planned(keyed, c))
  }

  ghost predicate IsPlanOf(p: Keyed, axes: seq<Axis>, overrides: seq<VariantOverride>) {
    && IsCombination(axes, p.plan.combination)
    && p.plan.override == OverrideFor(overrides, CombinationKeyOf(p.plan.combination))
  }

  lemma {:induction false} PlansAreOf(p: Product, next: nat, max: nat, axes: seq<Axis>, overrides: seq<VariantOverride>)
    requires |p.axes| == |axes| && PlanVariants(axes, overrides, max).Ok?
    ensures PlansOf(KeyedPlans(p, next, max, axes, overrides), axes, overrides)
  {
    var keyed, plans := KeyedPlans(p, next, max, axes, overrides), PlanVariants(axes, overrides, max).value;
    PlansAreTheGrid(axes, overrides, max);
    forall k | 0 <= k < |keyed| ensures IsPlanOf(keyed[k], axes, overrides) {
      assert plans[k].combination == keyed[k].plan.combination;
      PlanCarries(p, next, max, axes, overrides, k);
    }
    forall c | IsCombination(axes, c) ensures Planned(keyed, c) {
      var k :| 0 <= k < |plans| && plans[k].combination == c;
      assert keyed[k].plan.combination == c;
    }
  }

  lemma {:induction false} PlansCarry(keyed: seq<Keyed>, axes: seq<Axis>, overrides: seq<VariantOverride>,
                                      defaults: Defaults)
    requires PlansOf(keyed, axes, overrides)
    ensures (forall k :: 0 <= k < |keyed| ==> PricesFit(keyed[k].plan.override, defaults))
       <==> AllPricesFit(axes, overrides, defaults)
    ensures (exists k :: 0 <= k < |keyed| && AskedActive(keyed[k].plan.override)) <==> SomeActive(axes, overrides)
  {
    if SomeActive(axes, overrides) {
      var c :| IsCombination(axes, c) && AskedActive(OverrideFor(overrides, CombinationKeyOf(c)));
      assert Planned(keyed, c);
      var k :| 0 <= k < |keyed| && keyed[k].plan.combination == c;
      assert IsPlanOf(keyed[k], axes, overrides);
    }
    if k :| 0 <= k < |keyed| && AskedActive(keyed[k].plan.override) { assert IsPlanOf(keyed[k], axes, overrides); }
    if forall k :: 0 <= k < |keyed| ==> PricesFit(keyed[k].plan.override, defaults) {
      forall c | IsCombination(axes, c) ensures PricesFit(OverrideFor(overrides, CombinationKeyOf(c)), defaults) {
        assert Planned(keyed, c);
        var k :| 0 <= k < |keyed| && keyed[k].plan.combination == c;
        assert IsPlanOf(keyed[k], axes, overrides);
      }
    } else {
      var k :| 0 <= k < |keyed| && !PricesFit(keyed[k].plan.override, defaults);
      assert IsPlanOf(keyed[k], axes, overrides);
    }
  }

  lemma {:induction false} BirthsSellable(keyed: seq<Keyed>, defaults: Defaults, next: nat)
    ensures AnySellable(Births(keyed, defaults, next)) <==> exists k :: 0 <= k < |keyed|
                                                                        && AskedActive(keyed[k].plan.override)
  {
    forall k | 0 <= k < |keyed| ensures Sellable(Births(keyed, defaults, next)[k])
    <==> AskedActive(keyed[k].plan.override) {
      BornAs(keyed[k], defaults, next + k);
    }
  }

  lemma {:induction false} RevisedFresh(d: Draft, max: nat, input: NewProduct)
    requires |d.row.axes| == |input.axes| && d.row.variants == [] && PlanVariants(input.axes, input.overrides, max).Ok?
    ensures var revised := Revise(d.row, d.next, max, input.axes, input.overrides, Some(input.defaults));
            && (revised.Ok? <==> AllPricesFit(input.axes, input.overrides, input.defaults))
            && (revised.Err? ==> revised.error == ListPriceBelowPrice)
            && (revised.Ok? ==> (AnySellable(revised.value.0.variants) <==> SomeActive(input.axes, input.overrides)))
  {
    var keyed := KeyedPlans(d.row, d.next, max, input.axes, input.overrides);
    var mid := NextAt(d.row.axes, input.axes, d.next, |input.axes|);
    PlansAreOf(d.row, d.next, max, input.axes, input.overrides);
    PlansCarry(keyed, input.axes, input.overrides, input.defaults);
    LaidFresh(keyed, input.defaults, mid);
    RevisedBy(d.row, d.next, max, input.axes, input.overrides, Some(input.defaults),
              Lay([], keyed, Some(input.defaults), mid));
    BirthsSellable(keyed, input.defaults, mid);
  }

  /** Which refusal a creation gets, if any, in the order of the checks. */
  lemma {:induction false} CreateRefusals(s: Store, max: nat, input: NewProduct, refused: bool)
    ensures var made := Create(s, max, DraftOf(s, input), input, refused);
            var planned := PlanVariants(input.axes, input.overrides, max);
            made.error == (if planned.Err? then Some(PlanRefused(planned.error))
                           else if refused then Some(AttributesRefused)
                           else if !AllPricesFit(input.axes, input.overrides, input.defaults)
                           then Some(ListPriceBelowPrice)
                           else if input.status == ACTIVE && !SomeActive(input.axes, input.overrides)
                           then Some(NotSellable)
                           else None)
    ensures Create(s, max, DraftOf(s, input), input, refused).error.Some? ==>
              Create(s, max, DraftOf(s, input), input, refused).store == s
  {
    if PlanVariants(input.axes, input.overrides, max).Ok? { RevisedFresh(DraftOf(s, input), max, input); }
  }

  /**
   * A listing as it was asked for: its name, status and options, its price derived, and one variant for each
   * combination, at the defaults under what is said of it.
   */
  ghost predicate IsAsAsked(p: Product, input: NewProduct) {
    && p.name == input.name && p.status == input.status && p.version == 0 && !p.deleted
    && AxesOf(p.axes) == input.axes && IsMinPrice(p.variants, p.minPrice)
    && |p.variants| == GridCount(input.axes)
    && (forall k :: 0 <= k < |p.variants| ==> BornForOne(p, input, k))
  }

  /** A creation that is not refused stores a listing as it was asked for, and changes no other row. */
  lemma {:induction false} CreateExact(s: Store, max: nat, d: Draft, input: NewProduct, refused: bool)
    returns (p: Product)
    requires d == DraftOf(s, input) && Create(s, max, d, input, refused).error.None?
    ensures Create(s, max, d, input, refused).store.products == s.products[s.next := p]
    ensures IsAsAsked(p, input)
  {
    var first := DraftIs(s, input, d);
    p := CreateIs(s, first, max, d, input, refused);
  }

  lemma {:induction false} CreateIs(s: Store, first: nat, max: nat, d: Draft, input: NewProduct, refused: bool)
    returns (p: Product)
    requires Blanked(d.row, d.next, input.axes) && d.row.axes == Blank(input.axes, first) && d.row.name == input.name
    requires d.row.version == 0 && Create(s, max, d, input, refused).error.None?
    ensures Create(s, max, d, input, refused).store.products == s.products[s.next := p]
    ensures IsAsAsked(p, input)
  {
    p := CreateStores(s, max, d, input, refused);
    CreatedAsAsked(d, first, max, input, refused, p);
  }

  lemma {:induction false} CreateStores(s: Store, max: nat, d: Draft, input: NewProduct, refused: bool)
    returns (p: Product)
    requires |d.row.axes| == |input.axes| && Create(s, max, d, input, refused).error.None?
    ensures Created(d.row, d.next, max, input, refused).Ok? && p == Created(d.row, d.next, max, input, refused).value.0
    ensures Create(s, max, d, input, refused).store.products == s.products[s.next := p]
  {
    p := Created(d.row, d.next, max, input, refused).value.0;
  }

  lemma {:induction false} CreatedAsAsked(d: Draft, first: nat, max: nat, input: NewProduct, refused: bool, p: Product)
    requires Blanked(d.row, d.next, input.axes) && d.row.axes == Blank(input.axes, first) && d.row.name == input.name
    requires d.row.version == 0
    requires Created(d.row, d.next, max, input, refused).Ok? && p == Created(d.row, d.next, max, input, refused).value.0
    ensures IsAsAsked(p, input)
  {
    CreatedSettled(d, max, input, refused, p);
    CreatedRow(d, max, input, p);
    CreatedVariants(d, max, input, p);
    FreshAxes(input.axes, first, d.next);
    PlansAreTheGrid(input.axes, input.overrides, max);
  }

  lemma {:induction false} CreatedSettled(d: Draft, max: nat, input: NewProduct, refused: bool, p: Product)
    requires |d.row.axes| == |input.axes| && Created(d.row, d.next, max, input, refused).Ok?
    requires p == Created(d.row, d.next, max, input, refused).value.0
    ensures PlanVariants(input.axes, input.overrides, max).Ok?
    ensures Revise(d.row, d.next, max, input.axes, input.overrides, Some(input.defaults)).Ok?
    ensures var settled := Settle(Revise(d.row, d.next, max, input.axes, input.overrides, Some(input.defaults)).value.0,
                                  input.status, 0);
            settled.Ok? && settled.value == p
  {
  }

  lemma {:induction false} DraftIs(s: Store, input: NewProduct, d: Draft) returns (first: nat)
    requires d == DraftOf(s, input)
    ensures Blanked(d.row, d.next, input.axes) && d.row.axes == Blank(input.axes, first) && d.row.name == input.name
    ensures d.row.version == 0
  {
    first := s.next + 1;
  }

  lemma {:induction false} CreatedVariants(d: Draft, max: nat, input: NewProduct, p: Product)
    requires Blanked(d.row, d.next, input.axes) && PlanVariants(input.axes, input.overrides, max).Ok?
    requires Revise(d.row, d.next, max, input.axes, input.overrides, Some(input.defaults)).Ok?
    requires p.variants == Revise(d.row, d.next, max, input.axes, input.overrides,
                                  Some(input.defaults)).value.0.variants
    requires p.axes == ReviseAll(d.row.axes, input.axes, d.next)
    ensures forall k :: 0 <= k < |p.variants| ==> BornForOne(p, input, k)
  {
    AcceptedIff(input.axes, input.overrides, max);
    forall k | 0 <= k < |p.variants| ensures BornForOne(p, input, k) {
      var c := AddedVariant(d.row, d.next, max, input.axes, input.overrides, Some(input.defaults), k);
    }
  }

  lemma {:induction false} CreatedRow(d: Draft, max: nat, input: NewProduct, p: Product)
    requires |d.row.axes| == |input.axes| && d.row.variants == [] && PlanVariants(input.axes, input.overrides, max).Ok?
    requires Revise(d.row, d.next, max, input.axes, input.overrides, Some(input.defaults)).Ok?
    requires var settled := Settle(Revise(d.row, d.next, max, input.axes, input.overrides,
                                          Some(input.defaults)).value.0,
                                   input.status, 0);
             settled.Ok? && settled.value == p
    ensures p.axes == ReviseAll(d.row.axes, input.axes, d.next)
    ensures p.variants == Revise(d.row, d.next, max, input.axes, input.overrides, Some(input.defaults)).value.0.variants
    ensures |p.variants| == |PlanVariants(input.axes, input.overrides, max).value|
    ensures p.name == d.row.name && p.status == input.status && p.version == d.row.version && p.deleted == d.row.deleted
    ensures IsMinPrice(p.variants, p.minPrice)
  {
    var keyed := KeyedPlans(d.row, d.next, max, input.axes, input.overrides);
    var mid := NextAt(d.row.axes, input.axes, d.next, |input.axes|);
    LaidFresh(keyed, input.defaults, mid);
    RevisedBy(d.row, d.next, max, input.axes, input.overrides, Some(input.defaults),
              Lay([], keyed, Some(input.defaults), mid));
    SettleMeans(Revise(d.row, d.next, max, input.axes, input.overrides, Some(input.defaults)).value.0, input.status, 0);
  }

  /** The variant answers for a combination of the request, as it was asked for. */
  ghost predicate BornForOne(p: Product, input: NewProduct, k: nat)
    requires k < |p.variants|
  {
    exists c :: IsCombination(input.axes, c) && Offered(p.axes, c)
                && BornFrom(p.variants[k], IdsFor(p.axes, c), OverrideFor(input.overrides, CombinationKeyOf(c)),
                            input.defaults)
  }

  // --------------------------------------------------------------- editing

  /** The axes an edit asks for: those it names, or the ones on offer. */
  function AxesAsked(p: Product, edit: Edit): seq<Axis> {
    match edit.options case None => AxesOf(p.axes) case Some(axes) => axes
  }

  /** The status a listing has after an edit. */
  function StatusAsked(p: Product, edit: Edit): Status {
    match edit.status case None => p.status case Some(status) => status
  }

  /** The edit keeps the axes: as many of them, of the same names in the same order. */
  predicate KeepsAxes(p: Product, edit: Edit) {
    match edit.options
    case None => true
    case Some(axes) => |axes| == |p.axes| && forall i :: 0 <= i < |axes| ==> axes[i].name == p.axes[i].name
  }

  lemma {:induction false} ReviseIgnoresName(p: Product, name: string, next: nat, max: nat, axes: seq<Axis>,
                                             overrides: seq<VariantOverride>, defaults: Option<Defaults>)
    requires |p.axes| == |axes|
    ensures var a, b := Revise(p, next, max, axes, overrides, defaults),
                Revise(p.(name := name), next, max, axes, overrides, defaults);
            && (a.Ok? <==> b.Ok?) && (a.Err? ==> a.error == b.error)
            && (a.Ok? ==> b.value == (a.value.0.(name := name), a.value.1))
  {
  }

  /** The checks before the transaction's writes: the version, then the attribute values if they are looked at. */
  ghost predicate PassesFirst(p: Product, edit: Edit, refused: bool) {
    p.version == edit.version && !((edit.touchesAttributes || StatusAsked(p, edit) == ACTIVE) && refused)
  }

  lemma {:induction false} FirstRefusals(p: Product, next: nat, max: nat, edit: Edit, refused: bool)
    ensures var edited := Edited(p, next, max, edit, refused);
            && (p.version != edit.version ==> edited == Err(VersionConflict))
            && (p.version == edit.version && !PassesFirst(p, edit, refused) ==> edited == Err(AttributesRefused))
            && (PassesFirst(p, edit, refused) && !KeepsAxes(p, edit) ==> edited == Err(AxesChanged))
  {
  }

  lemma {:induction false} PassedIsRevised(p: Product, next: nat, max: nat, edit: Edit, refused: bool)
    requires PassesFirst(p, edit, refused) && KeepsAxes(p, edit)
    ensures Edited(p, next, max, edit, refused)
         == Finish(Revise(p.(name := edit.name.GetOr(p.name)), next, max, AxesAsked(p, edit), edit.overrides,
                          edit.defaults),
                   StatusAsked(p, edit), 1)
  {
  }

  lemma {:induction false} FinishRefusals(revised: Result<(Product, nat), Error>, status: Status)
    ensures revised.Err? ==> Finish(revised, status, 1) == Err(revised.error)
    ensures revised.Ok? ==>
              var sellable := exists k :: 0 <= k < |revised.value.0.variants| && Sellable(revised.value.0.variants[k]);
              && (status == ACTIVE && !sellable ==> Finish(revised, status, 1) == Err(NotSellable))
              && (status != ACTIVE || sellable ==> Finish(revised, status, 1).Ok?)
  {
  }

  /**
   * Which refusal an edit of a live row gets, if any, in the order of the checks: the version, the attribute values if
   * the edit touches them or the listing is to be on sale, the axes, the plan and its rows, something to sell.
   */
  lemma {:induction false} EditRefusals(p: Product, next: nat, max: nat, edit: Edit, refused: bool)
    ensures p.version != edit.version ==> Edited(p, next, max, edit, refused) == Err(VersionConflict)
    ensures p.version == edit.version && (edit.touchesAttributes || StatusAsked(p, edit) == ACTIVE) && refused ==>
              Edited(p, next, max, edit, refused) == Err(AttributesRefused)
    ensures PassesFirst(p, edit, refused) && !KeepsAxes(p, edit) ==>
                Edited(p, next, max, edit, refused) == Err(AxesChanged)
    ensures PassesFirst(p, edit, refused) && KeepsAxes(p, edit) ==>
              var revised := Revise(p, next, max, AxesAsked(p, edit), edit.overrides, edit.defaults);
              if revised.Err? then Edited(p, next, max, edit, refused) == Err(revised.error)
              else if StatusAsked(p, edit) == ACTIVE
                      && !exists k :: 0 <= k < |revised.value.0.variants| && Sellable(revised.value.0.variants[k])
              then Edited(p, next, max, edit, refused) == Err(NotSellable)
              else Edited(p, next, max, edit, refused).Ok?
  {
    FirstRefusals(p, next, max, edit, refused);
    if PassesFirst(p, edit, refused) && KeepsAxes(p, edit) {
      var name := edit.name.GetOr(p.name);
      PassedIsRevised(p, next, max, edit, refused);
      ReviseIgnoresName(p, name, next, max, AxesAsked(p, edit), edit.overrides, edit.defaults);
      FinishRefusals(Revise(p.(name := name), next, max, AxesAsked(p, edit), edit.overrides, edit.defaults),
                     StatusAsked(p, edit));
    }
  }

  /**
   * An edit leaves the name and status it gives, or the old ones, one version more, and the axes and variants of the
   * product revised over the options and overrides it gives, the price derived from those.
   */
  lemma {:induction false} EditExact(p: Product, next: nat, max: nat, edit: Edit, refused: bool)
    requires Edited(p, next, max, edit, refused).Ok?
    ensures KeepsAxes(p, edit) && Revise(p, next, max, AxesAsked(p, edit), edit.overrides, edit.defaults).Ok?
    ensures var (after, next') := Edited(p, next, max, edit, refused).value;
            var revised := Revise(p, next, max, AxesAsked(p, edit), edit.overrides, edit.defaults).value;
            && after.axes == revised.0.axes && after.variants == revised.0.variants && next' == revised.1
            && (if edit.name.Some? then after.name == edit.name.value else after.name == p.name)
            && after.status == StatusAsked(p, edit) && after.version == p.version + 1 && after.deleted == p.deleted
            && IsMinPrice(after.variants, after.minPrice)
  {
    ReviseIgnoresName(p, edit.name.GetOr(p.name), next, max, AxesAsked(p, edit), edit.overrides, edit.defaults);
    LowestIsMin(Revise(p, next, max, AxesAsked(p, edit), edit.overrides, edit.defaults).value.0.variants);
  }

  /** After an edit the axes have their old names and offer exactly the combinations of the options asked for. */
  lemma {:induction false} EditOffers(p: Product, next: nat, max: nat, edit: Edit, refused: bool, c: Combination)
    requires Edited(p, next, max, edit, refused).Ok?
    ensures var after := Edited(p, next, max, edit, refused).value.0;
            && |after.axes| == |p.axes| && (forall i :: 0 <= i < |p.axes| ==> after.axes[i].name == p.axes[i].name)
            && (IsCombination(AxesOf(after.axes), c) <==> IsCombination(AxesAsked(p, edit), c))
  {
    EditExact(p, next, max, edit, refused);
    ReviseOffers(p, next, max, AxesAsked(p, edit), edit.overrides, edit.defaults, c);
  }

  lemma {:induction false} ReviseOffers(p: Product, next: nat, max: nat, axes: seq<Axis>,
                                        overrides: seq<VariantOverride>,
                                        defaults: Option<Defaults>, c: Combination)
    requires |p.axes| == |axes| && Revise(p, next, max, axes, overrides, defaults).Ok?
    requires forall i :: 0 <= i < |p.axes| ==> p.axes[i].name == axes[i].name
    ensures var after := Revise(p, next, max, axes, overrides, defaults).value.0;
            && |after.axes| == |p.axes| && (forall i :: 0 <= i < |p.axes| ==> after.axes[i].name == p.axes[i].name)
            && (IsCombination(AxesOf(after.axes), c) <==> IsCombination(axes, c))
  {
    RevisedBy(p, next, max, axes, overrides, defaults,
              Lay(p.variants, KeyedPlans(p, next, max, axes, overrides), defaults, NextAt(p.axes, axes, next, |axes|)));
    RevisedOffered(p.axes, axes, next, c);
    OfferedIffCombination(ReviseAll(p.axes, axes, next), c);
  }

  /** An edit of a listing that is not live is answered not found, and otherwise writes that row alone or nothing. */
  lemma {:induction false} UpdateExact(s: Store, max: nat, id: nat, edit: Edit, refused: bool)
    ensures !(id in s.products && !s.products[id].deleted) ==>
                Update(s, max, id, edit, refused) == Outcome(s, Some(NotFound))
    ensures id in s.products && !s.products[id].deleted ==>
              var edited := Edited(s.products[id], s.next, max, edit, refused);
              && (edited.Err? ==> Update(s, max, id, edit, refused) == Outcome(s, Some(edited.error)))
              && (edited.Ok? ==> Update(s, max, id, edit, refused)
                                 == Outcome(Store(s.products[id := edited.value.0], edited.value.1), None))
  {
  }

  // ------------------------------------------------- the rows a revision leaves

  /** The prices a stored variant would have with the override hold together. */
  predicate PricesStay(v: Variant, override: Option<VariantOverride>) {
    var price := if override.Some? && override.value.detail.price.Some? then override.value.detail.price.value
        else v.price;
    var list := if override.Some? && override.value.detail.listPrice.Some? then override.value.detail.listPrice.value
                else v.listPrice;
    list.None? || list.value >= price
  }

  /** Every live variant still on offer keeps prices that hold together. */
  ghost predicate KeptPricesStay(p: Product, after: seq<StoredAxis>, overrides: seq<VariantOverride>) {
    forall k, c :: 0 <= k < |p.variants| && !p.variants[k].deleted && Offered(after, c)
                   && p.variants[k].choiceIds == IdsFor(after, c) ==>
                     PricesStay(p.variants[k], OverrideFor(overrides, CombinationKeyOf(c)))
  }

  /** A combination asked for that no live variant answers for. */
  ghost predicate Unanswered(p: Product, after: seq<StoredAxis>, c: Combination) {
    Offered(after, c) && !HasLive(p.variants, IdsFor(after, c))
  }

  /** A stored row as the revised axes find it: its ids still of them, one each, its signature and prices in order. */
  ghost predicate RowFits(p: Product, next: nat, after: seq<StoredAxis>, v: Variant) {
    VariantValid(p.axes, next, v) && OneEach(after, v.choiceIds)
  }

  ghost predicate RowsFit(p: Product, next: nat, after: seq<StoredAxis>) {
    forall k {:trigger RowFits(p, next, after, p.variants[k])} :: 0 <= k < |p.variants| ==>
      RowFits(p, next, after, p.variants[k])
  }

  lemma {:induction false} OverlaidPrice(after: seq<StoredAxis>, keyed: seq<Keyed>, axes: seq<Axis>,
                                         overrides: seq<VariantOverride>,
                                         v: Variant, c: Combination)
    requires PlansGrid(after, keyed) && PlansOf(keyed, axes, overrides) && Offered(after, c)
    requires v.choiceIds == IdsFor(after, c)
    requires !v.deleted && v.signature == SignatureOf(v.choiceIds)
    ensures PriceOk(Overlaid(v, PlanFor(keyed, v.signature)))
       <==> PricesStay(v, OverrideFor(overrides, CombinationKeyOf(c)))
  {
    var j := PlanOf(after, keyed, c);
    assert IsPlanOf(keyed[j], axes, overrides);
  }

  lemma {:induction false} OverlaidPrices(p: Product, next: nat, after: seq<StoredAxis>, keyed: seq<Keyed>,
                                          axes: seq<Axis>,
                                          overrides: seq<VariantOverride>)
    requires PlansGrid(after, keyed) && PlansOf(keyed, axes, overrides) && AxesApart(after) && RowsFit(p, next, after)
    ensures AllPricesOk(OverlaidAll(p.variants, keyed)) <==> KeptPricesStay(p, after, overrides)
  {
    forall k, c | 0 <= k < |p.variants| && !p.variants[k].deleted && Offered(after, c)
                  && p.variants[k].choiceIds == IdsFor(after, c)
      ensures PriceOk(OverlaidAll(p.variants, keyed)[k])
         <==> PricesStay(p.variants[k], OverrideFor(overrides, CombinationKeyOf(c)))
    {
      assert RowFits(p, next, after, p.variants[k]);
      OverlaidPrice(after, keyed, axes, overrides, p.variants[k], c);
    }
    if KeptPricesStay(p, after, overrides) {
      forall k | 0 <= k < |p.variants| ensures PriceOk(OverlaidAll(p.variants, keyed)[k]) {
        assert RowFits(p, next, after, p.variants[k]);
        PlannedInGrid(after, keyed, p.variants[k]);
      }
    }
  }

  lemma {:induction false} UnmetIff(p: Product, next: nat, after: seq<StoredAxis>, keyed: seq<Keyed>, axes: seq<Axis>,
                                    overrides: seq<VariantOverride>, j: nat)
    requires PlansGrid(after, keyed) && PlansOf(keyed, axes, overrides) && j < |keyed|
    requires AxesApart(after) && RowsFit(p, next, after)
    ensures keyed[j] in Unmet(keyed, LiveSignatures(p.variants)) <==> Unanswered(p, after, keyed[j].plan.combination)
  {
    UnmetMembers(keyed, LiveSignatures(p.variants), keyed[j]);
    assert KeyedRight(after, keyed[j]);
    if keyed[j].signature in LiveSignatures(p.variants) {
      var v :| v in p.variants && !v.deleted && v.signature == keyed[j].signature;
      var k :| 0 <= k < |p.variants| && p.variants[k] == v;
      assert RowFits(p, next, after, p.variants[k]);
      SignedIds(after, keyed[j], v);
    }
    if HasLive(p.variants, keyed[j].ids) {
      var k :| 0 <= k < |p.variants| && !p.variants[k].deleted && p.variants[k].choiceIds == keyed[j].ids;
      assert RowFits(p, next, after, p.variants[k]) && p.variants[k] in p.variants;
      assert p.variants[k].signature == keyed[j].signature;
      assert p.variants[k].signature in LiveSignatures(p.variants);
    }
  }

  /** The prices of the combinations no live variant answers for hold together at the defaults. */
  ghost predicate NewPricesFit(p: Product, after: seq<StoredAxis>, overrides: seq<VariantOverride>,
                               defaults: Defaults) {
    forall c {:trigger Unanswered(p, after, c)} :: Unanswered(p, after, c) ==>
      PricesFit(OverrideFor(overrides, CombinationKeyOf(c)), defaults)
  }

  /** The unmet plans are those of the combinations nobody answers for, with the overrides found for them. */
  ghost predicate UnmetAre(unmet: seq<Keyed>, p: Product, after: seq<StoredAxis>, axes: seq<Axis>,
                           overrides: seq<VariantOverride>) {
    && (forall m :: 0 <= m < |unmet| ==> Unanswered(p, after, unmet[m].plan.combination)
                                         && IsPlanOf(unmet[m], axes, overrides))
    && (forall c {:trigger Unanswered(p, after, c)} :: Unanswered(p, after, c) ==> Planned(unmet, c))
  }

  lemma {:induction false} UnmetAreUnanswered(p: Product, next: nat, after: seq<StoredAxis>, keyed: seq<Keyed>,
                                              axes: seq<Axis>,
                                              overrides: seq<VariantOverride>)
    requires PlansGrid(after, keyed) && PlansOf(keyed, axes, overrides)
    requires AxesApart(after) && RowsFit(p, next, after)
    ensures UnmetAre(Unmet(keyed, LiveSignatures(p.variants)), p, after, axes, overrides)
  {
    var unmet := Unmet(keyed, LiveSignatures(p.variants));
    forall m | 0 <= m < |unmet|
      ensures Unanswered(p, after, unmet[m].plan.combination) && IsPlanOf(unmet[m], axes, overrides)
    {
      assert unmet[m] in unmet;
      UnmetMembers(keyed, LiveSignatures(p.variants), unmet[m]);
      var j :| 0 <= j < |keyed| && keyed[j] == unmet[m];
      UnmetIff(p, next, after, keyed, axes, overrides, j);
    }
    forall c | Unanswered(p, after, c) ensures Planned(unmet, c) {
      assert Planned(keyed, c);
      var j :| 0 <= j < |keyed| && keyed[j].plan.combination == c;
      UnmetIff(p, next, after, keyed, axes, overrides, j);
      var m :| 0 <= m < |unmet| && unmet[m] == keyed[j];
    }
  }

  lemma {:induction false} BirthPrices(unmet: seq<Keyed>, p: Product, after: seq<StoredAxis>, axes: seq<Axis>,
                                       overrides: seq<VariantOverride>, defaults: Defaults, first: nat)
    requires UnmetAre(unmet, p, after, axes, overrides)
    ensures AllPricesOk(Births(unmet, defaults, first)) <==> NewPricesFit(p, after, overrides, defaults)
  {
    forall m | 0 <= m < |unmet|
      ensures PriceOk(Births(unmet, defaults, first)[m])
         <==> PricesFit(OverrideFor(overrides, CombinationKeyOf(unmet[m].plan.combination)), defaults)
    {
      assert IsPlanOf(unmet[m], axes, overrides);
      BornAs(unmet[m], defaults, first + m);
    }
    if AllPricesOk(Births(unmet, defaults, first)) {
      forall c | Unanswered(p, after, c) ensures PricesFit(OverrideFor(overrides, CombinationKeyOf(c)), defaults) {
        assert Planned(unmet, c);
        var m :| 0 <= m < |unmet| && unmet[m].plan.combination == c;
        assert PriceOk(Births(unmet, defaults, first)[m]);
      }
    }
  }

  lemma {:induction false} NoneUnmetIff(unmet: seq<Keyed>, p: Product, after: seq<StoredAxis>, axes: seq<Axis>,
                                        overrides: seq<VariantOverride>)
    requires UnmetAre(unmet, p, after, axes, overrides)
    ensures unmet == [] <==> forall c :: !Unanswered(p, after, c)
  {
    if unmet != [] { assert Unanswered(p, after, unmet[0].plan.combination); }
    if c :| Unanswered(p, after, c) { assert Planned(unmet, c); }
  }

  /**
   * Which refusal the rows of a revision get: prices of kept variants first, then defaults missing for new ones, then
   * the prices of the new ones.
   */
  lemma {:induction false} ReviseRefusals(p: Product, next: nat, max: nat, axes: seq<Axis>,
                                          overrides: seq<VariantOverride>,
                                          defaults: Option<Defaults>)
    requires |p.axes| == |axes| && GridValid(p.axes, p.variants, next)
    ensures PlanVariants(axes, overrides, max).Err? ==>
              Revise(p, next, max, axes, overrides, defaults)
                  == Err(PlanRefused(PlanVariants(axes, overrides, max).error))
    ensures PlanVariants(axes, overrides, max).Ok? ==>
              var after := ReviseAll(p.axes, axes, next);
              var revised := Revise(p, next, max, axes, overrides, defaults);
              var someNew := exists c :: Unanswered(p, after, c);
              if !KeptPricesStay(p, after, overrides) then revised == Err(ListPriceBelowPrice)
              else if someNew && defaults.None? then revised == Err(DefaultsMissing)
              else if someNew && !NewPricesFit(p, after, overrides, defaults.value)
              then revised == Err(ListPriceBelowPrice)
              else revised.Ok?
  {
    if PlanVariants(axes, overrides, max).Ok? {
      var keyed := KeyedPlans(p, next, max, axes, overrides);
      var mid := NextAt(p.axes, axes, next, |axes|);
      RevisedBy(p, next, max, axes, overrides, defaults, Lay(p.variants, keyed, defaults, mid));
      RevisedRows(p, next, max, axes, overrides, keyed);
      LayRefusals(p, next, ReviseAll(p.axes, axes, next), keyed, axes, overrides, defaults, mid);
    }
  }

  lemma {:induction false} RevisedRows(p: Product, next: nat, max: nat, axes: seq<Axis>,
                                       overrides: seq<VariantOverride>, keyed: seq<Keyed>)
    requires |p.axes| == |axes| && GridValid(p.axes, p.variants, next) && PlanVariants(axes, overrides, max).Ok?
    requires keyed == KeyedPlans(p, next, max, axes, overrides)
    ensures var after := ReviseAll(p.axes, axes, next);
            && PlansGrid(after, keyed) && PlansOf(keyed, axes, overrides) && AxesApart(after)
            && RowsFit(p, next, after)
  {
    PlansAreGrid(p.axes, axes, overrides, max, next);
    PlansAreOf(p, next, max, axes, overrides);
    forall k | 0 <= k < |p.variants| ensures RowFits(p, next, ReviseAll(p.axes, axes, next), p.variants[k])
    {
      assert VariantValid(p.axes, next, p.variants[k]);
      OneEachKept(p.axes, axes, next, p.variants[k].choiceIds);
    }
  }

  lemma {:induction false} LayRefusals(p: Product, next: nat, after: seq<StoredAxis>, keyed: seq<Keyed>,
                                       axes: seq<Axis>,
                                       overrides: seq<VariantOverride>, defaults: Option<Defaults>, first: nat)
    requires PlansGrid(after, keyed) && PlansOf(keyed, axes, overrides) && AxesApart(after) && RowsFit(p, next, after)
    ensures var laid := Lay(p.variants, keyed, defaults, first);
            var someNew := exists c :: Unanswered(p, after, c);
            if !KeptPricesStay(p, after, overrides) then laid == Err(ListPriceBelowPrice)
            else if someNew && defaults.None? then laid == Err(DefaultsMissing)
            else if someNew && !NewPricesFit(p, after, overrides, defaults.value) then laid == Err(ListPriceBelowPrice)
            else laid.Ok?
  {
    var unmet := Unmet(keyed, LiveSignatures(p.variants));
    OverlaidPrices(p, next, after, keyed, axes, overrides);
    UnmetAreUnanswered(p, next, after, keyed, axes, overrides);
    NoneUnmetIff(unmet, p, after, axes, overrides);
    if defaults.Some? { BirthPrices(unmet, p, after, axes, overrides, defaults.value, first); }
  }
}
