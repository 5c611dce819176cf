/** Replanning a stored product with nothing asked of it changes nothing, so publishing moves the status alone. */
module ProductPublish {
  import opened Prelude
  import opened VariantGrid
  import opened VariantRules
  import opened ProductRows
  import opened ProductAxes
  import opened ProductVariants
  import opened ProductWrites

  lemma {:induction false} NothingToAdd(values: seq<string>, held: seq<string>, order: nat, next: nat)
    requires forall v :: v in values ==> v in held
    ensures Additions(values, held, order, next) == [] && NewCount(values, held) == 0
  {
    if values != [] {
      assert values[0] in held;
      NothingToAdd(values[1..], held, order, next);
    }
  }

  /** An axis asked for the values it offers stays as it is. */
  lemma {:induction false} AxisUnrevised(axis: StoredAxis, next: nat)
    ensures Revised(axis, ValuesIn(LiveChoices(axis)), next) == axis
    ensures NewCount(ValuesIn(LiveChoices(axis)), ValuesIn(LiveChoices(axis))) == 0
  {
    var values := ValuesIn(LiveChoices(axis));
    NothingToAdd(values, values, |values|, next);
    forall k | 0 <= k < |axis.choices| ensures RetireUnless(values, axis.choices[k]) == axis.choices[k] {
      var c := axis.choices[k];
      if !c.deleted {
        LiveMembers(axis, c);
        ValuesMember(LiveChoices(axis), c.value);
      }
    }
    assert AddTo(axis, values, next).choices == axis.choices;
    assert Revised(axis, values, next).choices == axis.choices;
  }

  lemma {:induction false} SumOfNothing(counts: seq<nat>, n: nat)
    requires n <= |counts| && forall i :: 0 <= i < |counts| ==> counts[i] == 0
    ensures Sum(counts, n) == 0
  {
    if n > 0 { SumOfNothing(counts, n - 1); }
  }

  lemma {:induction false} AxesUnrevised(stored: seq<StoredAxis>, next: nat)
    ensures ReviseAll(stored, AxesOf(stored), next) == stored
    ensures NextAt(stored, AxesOf(stored), next, |stored|) == next
  {
    var axes := AxesOf(stored);
    forall i | 0 <= i < |stored| ensures ReviseAll(stored, axes, next)[i] == stored[i]
               && NewCounts(stored, axes)[i] == 0 {
      AxisUnrevised(stored[i], NextAt(stored, axes, next, i));
    }
    SumOfNothing(NewCounts(stored, axes), |stored|);
  }

  /** The axes of a stored product are always ones the planner accepts. */
  lemma {:induction false} StoredAxesPlan(stored: seq<StoredAxis>, next: nat, max: nat)
    requires AxesValid(stored, next) && GridCount(AxesOf(stored)) <= max
    ensures PlanVariants<Detail>(AxesOf(stored), [], max).Ok?
  {
    var axes := AxesOf(stored);
    forall i | 0 <= i < |axes| ensures Distinct(axes[i].values) { LiveValuesDistinct(stored[i]); }
    forall i, j | 0 <= i < j < |axes| ensures Names(axes)[i] != Names(axes)[j] {
      assert stored[i].name != stored[j].name;
    }
    AcceptedIff<Detail>(axes, [], max);
  }

  /** Plans that carry no override, laid over a grid that already has its variants, change nothing. */
  lemma {:induction false} LaidUnchanged(stored: seq<StoredAxis>, keyed: seq<Keyed>, variants: seq<Variant>,
                                         defaults: Option<Defaults>, next: nat)
    requires GridValid(stored, variants, next) && PlansGrid(stored, keyed)
    requires forall p :: p in keyed ==> p.plan.override.None?
    ensures Lay(variants, keyed, defaults, next) == Ok((variants, next))
  {
    var held := LiveSignatures(variants);
    forall k | 0 <= k < |variants| ensures OverlaidAll(variants, keyed)[k] == variants[k] && PriceOk(variants[k]) {
      VariantUnchanged(stored, keyed, variants, next, k);
    }
    assert OverlaidAll(variants, keyed) == variants;
    forall p | p in keyed ensures p.signature in held {
      assert KeyedRight(stored, p);
      assert HasLive(variants, p.ids);
      var m :| 0 <= m < |variants| && !variants[m].deleted && variants[m].choiceIds == p.ids;
      assert VariantValid(stored, next, variants[m]);
      assert variants[m] in variants;
    }
    AllMet(keyed, held);
  }

  lemma {:induction false} AllMet(keyed: seq<Keyed>, held: set<string>)
    requires forall p :: p in keyed ==> p.signature in held
    ensures Unmet(keyed, held) == []
  {
    if keyed != [] {
      assert keyed[0] in keyed;
      AllMet(keyed[1..], held);
    }
  }

  lemma {:induction false} VariantUnchanged(stored: seq<StoredAxis>, keyed: seq<Keyed>, variants: seq<Variant>,
                                            next: nat, k: nat)
    requires GridValid(stored, variants, next) && PlansGrid(stored, keyed) && k < |variants|
    requires forall p :: p in keyed ==> p.plan.override.None?
    ensures Overlaid(variants[k], PlanFor(keyed, variants[k].signature)) == variants[k] && PriceOk(variants[k])
  {
    var v := variants[k];
    assert VariantValid(stored, next, v);
    if PlanFor(keyed, v.signature).Some? {
      var j := PlanFound(keyed, v.signature);
      assert keyed[j] in keyed;
    } else if Sellable(v) {
      assert SoldInGrid(stored, v);
      var c :| Offered(stored, c) && IdsFor(stored, c) == v.choiceIds;
      var j := PlanOf(stored, keyed, c);
    }
  }

  /** A revision that asks for nothing keeps the product exactly as it is stored. */
  lemma {:induction false} RevisingNothing(p: Product, next: nat, max: nat, defaults: Option<Defaults>)
    requires GridValid(p.axes, p.variants, next) && GridCount(AxesOf(p.axes)) <= max
    ensures Revise(p, next, max, AxesOf(p.axes), [], defaults) == Ok((p, next))
  {
    var axes := AxesOf(p.axes);
    StoredAxesPlan(p.axes, next, max);
    AxesUnrevised(p.axes, next);
    PlansAreGrid(p.axes, axes, [], max, next);
    var keyed := KeyedPlans(p, next, max, axes, []);
    forall q | q in keyed ensures q.plan.override.None? {
      var k :| 0 <= k < |keyed| && keyed[k] == q;
      PlanCarries(p, next, max, axes, [], k);
    }
    LaidUnchanged(p.axes, keyed, p.variants, defaults, next);
  }

  /** An edit that names a status and nothing else. */
  function StatusOnly(version: nat, status: Status): Edit { Edit(version, None, Some(status), None, [], None, false) }

  /**
   * Publishing and unpublishing move the status and the version and nothing else; publishing is refused
   * exactly when the attributes are, or nothing can be ordered.
   */
  lemma {:induction false} StatusOnlyEdit(p: Product, next: nat, max: nat, version: nat, status: Status, refused: bool)
    requires !p.deleted && ProductValid(p, next, max)
    ensures Edited(p, next, max, StatusOnly(version, status), refused)
         == if version != p.version then Err(VersionConflict)
            else if status == ACTIVE && refused then Err(AttributesRefused)
            else if status == ACTIVE && p.minPrice.None? then Err(NotSellable)
            else Ok((p.(status := status, version := p.version + 1), next))
  {
    EditedByStatus(p, next, max, version, status, refused, Revise(p, next, max, AxesOf(p.axes), [], None));
    RevisingNothing(p, next, max, None);
    SettledAgain(p, next, max, status);
  }

  lemma {:induction false} EditedByStatus(p: Product, next: nat, max: nat, version: nat, status: Status, refused: bool,
                                          revised: Result<(Product, nat), Error>)
    requires revised == Revise(p, next, max, AxesOf(p.axes), [], None)
    ensures Edited(p, next, max, StatusOnly(version, status), refused)
         == if version != p.version then Err(VersionConflict)
            else if status == ACTIVE && refused then Err(AttributesRefused)
            else Finish(revised, status, 1)
  {
    assert p.(name := p.name) == p;
  }

  /** Settling a stored product finds the price it already has. */
  lemma {:induction false} SettledAgain(p: Product, next: nat, max: nat, status: Status)
    requires ProductValid(p, next, max)
    ensures Finish(Ok((p, next)), status, 1)
         == if status == ACTIVE && p.minPrice.None? then Err(NotSellable)
             else Ok((p.(status := status, version := p.version + 1), next))
  {
    LowestIsMin(p.variants);
    MinPriceUnique(p.variants, p.minPrice, LowestPrice(p.variants));
    assert AnySellable(p.variants) <==> p.minPrice.Some?;
  }
}
