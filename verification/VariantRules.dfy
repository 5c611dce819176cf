/** Which variants a product has: the grid of its axes with the caller's overrides laid over it. */
module VariantRules {
  import opened Prelude
  import opened Texts
  import opened VariantGrid

  datatype Override<+T> = Override(optionValues: seq<string>, detail: T)

  datatype Plan<+T> = Plan(combination: Combination, override: Option<Override<T>>)

  datatype Issue =
    | DuplicateOption(axis: nat)
    | DuplicateOptionValue(axis: nat, value: nat)
    | TooManyVariants
    | CombinationArity(override: nat)
    | UnknownCombination(override: nat)
    | DuplicateCombination(override: nat)

  const KEY_SEPARATOR: char := '\U{001F}'

  function CombinationKeyOf(values: seq<string>): string { Join(values, KEY_SEPARATOR) }

  /** The product's own limit, unless the variant has one. */
  function ResolvePurchaseLimit(productLimit: Option<nat>, variantLimit: Option<nat>): Option<nat> {
    if variantLimit.Some? then variantLimit else productLimit
  }

  // -------------------------------------------------------- specification

  function Repeats(values: seq<string>, n: nat): seq<nat>
    requires n <= |values|
  {
    if n == 0 then [] else Repeats(values, n - 1) + (if values[n - 1] in values[..n - 1] then [n - 1] else [])
  }

  function Names(axes: seq<Axis>): seq<string> { seq(|axes|, i requires 0 <= i < |axes| => axes[i].name) }

  function NameIssues(repeats: seq<nat>): seq<Issue> {
    seq(|repeats|, i requires 0 <= i < |repeats| => DuplicateOption(repeats[i]))
  }

  function ValueIssues(axis: nat, repeats: seq<nat>): seq<Issue> {
    seq(|repeats|, i requires 0 <= i < |repeats| => DuplicateOptionValue(axis, repeats[i]))
  }

  function AllValueIssues(axes: seq<Axis>, n: nat): seq<Issue>
    requires n <= |axes|
  {
    if n == 0 then [] else AllValueIssues(axes, n - 1)
                               + ValueIssues(n - 1, Repeats(axes[n - 1].values, |axes[n - 1].values|))
  }

  function AxisIssues(axes: seq<Axis>): seq<Issue> {
    NameIssues(Repeats(Names(axes), |axes|)) + AllValueIssues(axes, |axes|)
  }

  function Keys(combinations: seq<Combination>): set<string> { set c | c in combinations :: CombinationKeyOf(c) }

  /** Override `i` names a combination: the right number of values, and a key the grid has. */
  predicate NamesKnown<T>(axisCount: nat, known: set<string>, overrides: seq<Override<T>>, i: nat)
    requires i < |overrides|
  {
    |overrides[i].optionValues| == axisCount && CombinationKeyOf(overrides[i].optionValues) in known
  }

  predicate Repeated<T>(axisCount: nat, known: set<string>, overrides: seq<Override<T>>, i: nat)
    requires i < |overrides|
  {
    exists j :: 0 <= j < i && NamesKnown(axisCount, known, overrides, j)
                && CombinationKeyOf(overrides[j].optionValues) == CombinationKeyOf(overrides[i].optionValues)
  }

  /** What the matching says of override `i`, if anything. */
  function OverrideIssue<T>(axisCount: nat, known: set<string>, overrides: seq<Override<T>>, i: nat): Option<Issue>
    requires i < |overrides|
  {
    if |overrides[i].optionValues| != axisCount then Some(CombinationArity(i))
    else if CombinationKeyOf(overrides[i].optionValues) !in known then Some(UnknownCombination(i))
    else if Repeated(axisCount, known, overrides, i) then Some(DuplicateCombination(i))
    else None
  }

  function OverrideIssues<T>(axisCount: nat, known: set<string>, overrides: seq<Override<T>>, n: nat): seq<Issue>
    requires n <= |overrides|
  {
    if n == 0 then []
    else OverrideIssues(axisCount, known, overrides, n - 1)
         + (match OverrideIssue(axisCount, known, overrides, n - 1) case Some(issue) => [issue] case None => [])
  }

  /** The first override with the given key. */
  function OverrideFor<T>(overrides: seq<Override<T>>, key: string): Option<Override<T>> {
    if overrides == [] then None
    else if CombinationKeyOf(overrides[0].optionValues) == key then Some(overrides[0])
    else OverrideFor(overrides[1..], key)
  }

  function Laid<T>(combinations: seq<Combination>, overrides: seq<Override<T>>): (plans: seq<Plan<T>>)
    ensures |plans| == |combinations|
  {
    seq(|combinations|, i requires 0 <= i < |combinations| =>
      Plan(combinations[i], OverrideFor(overrides, CombinationKeyOf(combinations[i]))))
  }

  function PlanVariants<T>(axes: seq<Axis>, overrides: seq<Override<T>>,
                           maxVariants: nat): Result<seq<Plan<T>>, seq<Issue>> {
    if AxisIssues(axes) != [] then Err(AxisIssues(axes))
    else if |Grid(axes)| > maxVariants then Err([TooManyVariants])
    else
      var issues := OverrideIssues(|axes|, Keys(Grid(axes)), overrides, |overrides|);
      if issues != [] then Err(issues) else Ok(Laid(Grid(axes), overrides))
  }

  // -------------------------------------------------------------- the loops

  method DuplicateIndexes(values: seq<string>) returns (repeats: seq<nat>)
    ensures repeats == Repeats(values, |values|)
  {
    var seen: set<string> := {};
    repeats := [];
    for i := 0 to |values|
      invariant forall v :: v in seen <==> v in values[..i]
      invariant repeats == Repeats(values, i)
    {
      assert values[..i + 1] == values[..i] + [values[i]];
      if values[i] in seen { repeats := repeats + [i]; } else { seen := seen + {values[i]}; }
    }
  }

  method FindAxisIssues(axes: seq<Axis>) returns (issues: seq<Issue>)
    ensures issues == AxisIssues(axes)
  {
    var repeats := DuplicateIndexes(Names(axes));
    issues := NameIssues(repeats);
    for i := 0 to |axes|
      invariant issues == NameIssues(repeats) + AllValueIssues(axes, i)
    {
      var values := DuplicateIndexes(axes[i].values);
      issues := issues + ValueIssues(i, values);
    }
  }

  /** The keys matched so far are those of the overrides before `n` that name a combination. */
  ghost predicate KeysMatched<T>(axisCount: nat, known: set<string>, overrides: seq<Override<T>>, n: nat,
                                 keys: set<string>)
    requires n <= |overrides|
  {
    forall key :: key in keys <==>
                    exists j :: 0 <= j < n && NamesKnown(axisCount, known, overrides, j)
                                && CombinationKeyOf(overrides[j].optionValues) == key
  }

  /** The map finds for each key the first override that has it. */
  ghost predicate Finds<T>(overrides: seq<Override<T>>, matched: map<string, Override<T>>) {
    forall key :: OverrideFor(overrides, key) == if key in matched then Some(matched[key]) else None
  }

  lemma {:induction false} FindsNext<T>(overrides: seq<Override<T>>, n: nat, matched: map<string, Override<T>>)
    requires n < |overrides| && Finds(overrides[..n], matched)
    requires CombinationKeyOf(overrides[n].optionValues) !in matched
    ensures Finds(overrides[..n + 1], matched[CombinationKeyOf(overrides[n].optionValues) := overrides[n]])
  {
    var after := matched[CombinationKeyOf(overrides[n].optionValues) := overrides[n]];
    forall key ensures OverrideFor(overrides[..n + 1], key) == if key in after then Some(after[key]) else None {
      OverrideForNext(overrides, n, key);
    }
  }

  method MatchOverrides<T>(axisCount: nat, known: set<string>, overrides: seq<Override<T>>)
    returns (matched: map<string, Override<T>>, issues: seq<Issue>)
    ensures issues == OverrideIssues(axisCount, known, overrides, |overrides|)
    ensures issues == [] ==> forall key :: OverrideFor(overrides, key) == if key in matched then Some(matched[key])
                else None
  {
    matched, issues := map[], [];
    for i := 0 to |overrides|
      invariant issues == OverrideIssues(axisCount, known, overrides, i)
      invariant KeysMatched(axisCount, known, overrides, i, matched.Keys)
      invariant issues == [] ==> Finds(overrides[..i], matched)
    {
      var key := CombinationKeyOf(overrides[i].optionValues);
      if |overrides[i].optionValues| != axisCount {
        issues := issues + [CombinationArity(i)];
      } else if key !in known {
        issues := issues + [UnknownCombination(i)];
      } else if key in matched {
        assert Repeated(axisCount, known, overrides, i);
        issues := issues + [DuplicateCombination(i)];
      } else {
        assert NamesKnown(axisCount, known, overrides, i);
        if issues == [] { FindsNext(overrides, i, matched); }
        matched := matched[key := overrides[i]];
      }
    }
    assert overrides[..|overrides|] == overrides;
  }

  lemma {:induction false} OverrideForNext<T>(overrides: seq<Override<T>>, n: nat, key: string)
    requires n < |overrides|
    ensures OverrideFor(overrides[..n + 1], key) == if OverrideFor(overrides[..n], key).Some?
                then OverrideFor(overrides[..n], key)
                                                    else if CombinationKeyOf(overrides[n].optionValues) == key
                                                    then Some(overrides[n]) else None
  {
    var shorter, longer := overrides[..n], overrides[..n + 1];
    if n == 0 {
      assert longer == [overrides[0]] && longer[1..] == [];
    } else {
      OverrideForNext(overrides[1..], n - 1, key);
      assert longer[1..] == overrides[1..][..n] && shorter[1..] == overrides[1..][..n - 1];
    }
  }

  method PlanAll<T>(axes: seq<Axis>, overrides: seq<Override<T>>, maxVariants: nat)
    returns (planned: Result<seq<Plan<T>>, seq<Issue>>)
    ensures planned == PlanVariants(axes, overrides, maxVariants)
  {
    var issues := FindAxisIssues(axes);
    if issues != [] { return Err(issues); }
    var combinations := ExpandCombinations(axes);
    if |combinations| > maxVariants { return Err([TooManyVariants]); }
    var known := Keys(combinations);
    var matched, overrideIssues := MatchOverrides(|axes|, known, overrides);
    if overrideIssues != [] { return Err(overrideIssues); }
    var plans := seq(|combinations|, i requires 0 <= i < |combinations| =>
      var key := CombinationKeyOf(combinations[i]);
      Plan(combinations[i], if key in matched then Some(matched[key]) else None));
    assert plans == Laid(combinations, overrides);
    return Ok(plans);
  }

  // ------------------------------------------------- what the issues name

  /** The positions named are exactly those of entries that stand somewhere before. */
  lemma {:induction false} RepeatsAre(values: seq<string>, n: nat, i: nat)
    requires n <= |values|
    ensures i in Repeats(values, n) <==> i < n && exists j :: 0 <= j < i && values[j] == values[i]
  {
    if n > 0 {
      RepeatsAre(values, n - 1, i);
      if i == n - 1 { assert values[i] in values[..i] <==> exists j :: 0 <= j < i && values[j] == values[i]; }
    }
  }

  /** All faulty overrides are named together, each with its first fault. */
  lemma {:induction false} OverrideIssuesAre<T>(axisCount: nat, known: set<string>, overrides: seq<Override<T>>, n: nat,
                                                issue: Issue)
    requires n <= |overrides|
    ensures issue in OverrideIssues(axisCount, known, overrides, n)
       <==> exists i :: 0 <= i < n && OverrideIssue(axisCount, known, overrides, i) == Some(issue)
  {
    if n > 0 { OverrideIssuesAre(axisCount, known, overrides, n - 1, issue); }
  }

  /** The key of some combination on offer. */
  ghost predicate KeyOffered(axes: seq<Axis>, key: string) {
    exists c {:trigger CombinationKeyOf(c)} :: IsCombination(axes, c) && CombinationKeyOf(c) == key
  }

  /** The fault of the `i`-th override: of a wrong length, naming nothing, or naming what one before it names. */
  ghost predicate HasFault<T>(axes: seq<Axis>, overrides: seq<Override<T>>, i: nat, fault: Issue)
    requires i < |overrides|
  {
    var values := overrides[i].optionValues;
    var known := KeyOffered(axes, CombinationKeyOf(values));
    match fault
    case CombinationArity(k) => k == i && |values| != |axes|
    case UnknownCombination(k) => k == i && |values| == |axes| && !known
    case DuplicateCombination(k) =>
      k == i && |values| == |axes| && known
      && exists j :: 0 <= j < i && |overrides[j].optionValues| == |axes|
                     && CombinationKeyOf(overrides[j].optionValues) == CombinationKeyOf(values)
    case _ => false
  }

  lemma {:induction false} KnownIff(axes: seq<Axis>, key: string)
    ensures key in Keys(Grid(axes)) <==> KeyOffered(axes, key)
  {
    if key in Keys(Grid(axes)) {
      var c :| c in Grid(axes) && CombinationKeyOf(c) == key;
      GridMembers(axes, c);
    }
    if KeyOffered(axes, key) {
      var c {:trigger CombinationKeyOf(c)} :| IsCombination(axes, c) && CombinationKeyOf(c) == key;
      GridMembers(axes, c);
    }
  }

  lemma {:induction false} FaultIs<T>(axes: seq<Axis>, overrides: seq<Override<T>>, i: nat, fault: Issue)
    requires i < |overrides|
    ensures OverrideIssue(|axes|, Keys(Grid(axes)), overrides, i) == Some(fault)
       <==> HasFault(axes, overrides, i, fault)
  {
    KnownIff(axes, CombinationKeyOf(overrides[i].optionValues));
  }

  lemma {:induction false} FaultPlaces<T>(axisCount: nat, known: set<string>, overrides: seq<Override<T>>, n: nat)
    returns (at: seq<nat>)
    requires n <= |overrides|
    ensures |at| == |OverrideIssues(axisCount, known, overrides, n)|
    ensures forall k :: 0 <= k < |at| ==> at[k] < n && OverrideIssue(axisCount, known, overrides, at[k])
                                                       == Some(OverrideIssues(axisCount, known, overrides, n)[k])
    ensures forall j, k :: 0 <= j < k < |at| ==> at[j] < at[k]
    ensures forall i {:trigger i in at} :: 0 <= i < n && OverrideIssue(axisCount, known, overrides, i).Some? ==> i in at
  {
    if n == 0 {
      at := [];
    } else {
      at := FaultPlaces(axisCount, known, overrides, n - 1);
      if OverrideIssue(axisCount, known, overrides, n - 1).Some? { at := at + [n - 1]; }
    }
  }

  /** Refused overrides are named one after the other, each with its own fault, and no faulty one is left out. */
  lemma {:induction false} FaultsNamed<T>(axes: seq<Axis>, overrides: seq<Override<T>>) returns (at: seq<nat>)
    ensures var issues := OverrideIssues(|axes|, Keys(Grid(axes)), overrides, |overrides|);
            |at| == |issues| && forall k :: 0 <= k < |at| ==>
                at[k] < |overrides| && HasFault(axes, overrides, at[k], issues[k])
    ensures forall j, k :: 0 <= j < k < |at| ==> at[j] < at[k]
    ensures forall i, fault :: 0 <= i < |overrides| && HasFault(axes, overrides, i, fault) ==> i in at
  {
    var issues := OverrideIssues(|axes|, Keys(Grid(axes)), overrides, |overrides|);
    at := FaultPlaces(|axes|, Keys(Grid(axes)), overrides, |overrides|);
    forall k | 0 <= k < |at| ensures HasFault(axes, overrides, at[k], issues[k]) {
      FaultIs(axes, overrides, at[k], issues[k]);
    }
    forall i, fault | 0 <= i < |overrides| && HasFault(axes, overrides, i, fault) ensures i in at {
      FaultIs(axes, overrides, i, fault);
    }
  }

  // --------------------------------------------- exactly when a plan is made

  lemma {:induction false} ValueIssuesAre(axes: seq<Axis>, n: nat, issue: Issue)
    requires n <= |axes|
    ensures issue in AllValueIssues(axes, n)
       <==> issue.DuplicateOptionValue? && issue.axis < n && issue.value < |axes[issue.axis].values|
            && axes[issue.axis].values[issue.value] in axes[issue.axis].values[..issue.value]
  {
    if n > 0 {
      var values := axes[n - 1].values;
      var repeats := Repeats(values, |values|);
      ValueIssuesAre(axes, n - 1, issue);
      if issue in ValueIssues(n - 1, repeats) {
        var i :| 0 <= i < |repeats| && ValueIssues(n - 1, repeats)[i] == issue;
        assert repeats[i] in repeats;
        RepeatsAre(values, |values|, issue.value);
      }
      if issue.DuplicateOptionValue? && issue.axis == n - 1 && issue.value < |values|
      && values[issue.value] in values[..issue.value] {
        RepeatsAre(values, |values|, issue.value);
        var i :| 0 <= i < |repeats| && repeats[i] == issue.value;
        assert ValueIssues(n - 1, repeats)[i] == issue;
      }
    }
  }

  /** The axis issues: every name that stood before, by its axis, and every value that stood before on its axis. */
  lemma {:induction false} AxisIssuesAre(axes: seq<Axis>, issue: Issue)
    ensures issue in AxisIssues(axes)
       <==> match issue
            case DuplicateOption(i) => i < |axes| && exists j :: 0 <= j < i && axes[j].name == axes[i].name
            case DuplicateOptionValue(i, k) => i < |axes| && k < |axes[i].values|
                                               && axes[i].values[k] in axes[i].values[..k]
            case _ => false
  {
    var names := Names(axes);
    var repeats := Repeats(names, |axes|);
    ValueIssuesAre(axes, |axes|, issue);
    if issue in NameIssues(repeats) {
      var i :| 0 <= i < |repeats| && NameIssues(repeats)[i] == issue;
      assert repeats[i] in repeats;
      RepeatsAre(names, |axes|, issue.axis);
      var j :| 0 <= j < issue.axis && names[..issue.axis][j] == names[issue.axis];
    }
    if issue.DuplicateOption? && issue.axis < |axes| && exists j :: 0 <= j < issue.axis
                                                                    && axes[j].name == axes[issue.axis].name {
      var j :| 0 <= j < issue.axis && axes[j].name == axes[issue.axis].name;
      assert names[..issue.axis][j] == names[issue.axis];
      RepeatsAre(names, |axes|, issue.axis);
      var i :| 0 <= i < |repeats| && repeats[i] == issue.axis;
      assert NameIssues(repeats)[i] == issue;
    }
  }

  /** What a refused request is told: the axes first and alone, then the limit alone, then every faulty override. */
  lemma {:induction false} RefusalsInOrder<T>(axes: seq<Axis>, overrides: seq<Override<T>>, maxVariants: nat)
    ensures !GoodAxes(axes) ==> PlanVariants(axes, overrides, maxVariants) == Err(AxisIssues(axes))
                                && AxisIssues(axes) != []
    ensures GoodAxes(axes) && GridCount(axes) > maxVariants ==>
                PlanVariants(axes, overrides, maxVariants) == Err([TooManyVariants])
    ensures GoodAxes(axes) && GridCount(axes) <= maxVariants && PlanVariants(axes, overrides, maxVariants).Err? ==>
              PlanVariants(axes, overrides, maxVariants).error
                  == OverrideIssues(|axes|, Keys(Grid(axes)), overrides, |overrides|)
  {
    AxesGood(axes);
    GridSize(axes);
  }

  ghost predicate GoodAxes(axes: seq<Axis>) { Distinct(Names(axes)) && UniqueValues(axes) }

  lemma {:induction false} NoRepeats(values: seq<string>, n: nat)
    requires n <= |values|
    ensures Repeats(values, n) == [] <==> Distinct(values[..n])
  {
    if n > 0 {
      NoRepeats(values, n - 1);
      assert values[..n] == values[..n - 1] + [values[n - 1]];
      if values[n - 1] in values[..n - 1] {
        var j :| 0 <= j < n - 1 && values[j] == values[n - 1];
        assert values[..n][j] == values[..n][n - 1];
      }
      if Distinct(values[..n]) {
        assert forall i, j :: 0 <= i < j < n - 1 ==> values[..n][i] != values[..n][j];
      }
    }
  }

  lemma {:induction false} NoValueIssues(axes: seq<Axis>, n: nat)
    requires n <= |axes|
    ensures AllValueIssues(axes, n) == [] <==> forall i :: 0 <= i < n ==> Distinct(axes[i].values)
  {
    if n > 0 {
      NoValueIssues(axes, n - 1);
      var values := axes[n - 1].values;
      NoRepeats(values, |values|);
      assert values[..|values|] == values;
    }
  }

  lemma {:induction false} AxesGood(axes: seq<Axis>)
    ensures AxisIssues(axes) == [] <==> GoodAxes(axes)
  {
    NoRepeats(Names(axes), |axes|);
    assert Names(axes)[..|axes|] == Names(axes);
    NoValueIssues(axes, |axes|);
  }

  /** Every override names a combination by its key, and no two the same one. */
  ghost predicate Matching<T>(axisCount: nat, known: set<string>, overrides: seq<Override<T>>) {
    && (forall i :: 0 <= i < |overrides| ==> NamesKnown(axisCount, known, overrides, i))
    && (forall i, j :: 0 <= i < j < |overrides| ==>
                           CombinationKeyOf(overrides[i].optionValues) != CombinationKeyOf(overrides[j].optionValues))
  }

  lemma {:induction false} NoOverrideIssues<T>(axisCount: nat, known: set<string>, overrides: seq<Override<T>>, n: nat)
    requires n <= |overrides|
    ensures OverrideIssues(axisCount, known, overrides, n) == [] <==>
            forall i :: 0 <= i < n ==> OverrideIssue(axisCount, known, overrides, i) == None
  {
    if n > 0 { NoOverrideIssues(axisCount, known, overrides, n - 1); }
  }

  lemma {:induction false} MatchingIff<T>(axisCount: nat, known: set<string>, overrides: seq<Override<T>>)
    ensures OverrideIssues(axisCount, known, overrides, |overrides|) == [] <==> Matching(axisCount, known, overrides)
  {
    NoOverrideIssues(axisCount, known, overrides, |overrides|);
    if forall i :: 0 <= i < |overrides| ==> OverrideIssue(axisCount, known, overrides, i) == None {
      forall i | 0 <= i < |overrides| ensures NamesKnown(axisCount, known, overrides, i) {
        assert OverrideIssue(axisCount, known, overrides, i) == None;
      }
      forall i, j | 0 <= i < j < |overrides|
        ensures CombinationKeyOf(overrides[i].optionValues) != CombinationKeyOf(overrides[j].optionValues)
      {
        assert OverrideIssue(axisCount, known, overrides, j) == None;
        assert !Repeated(axisCount, known, overrides, j);
        assert NamesKnown(axisCount, known, overrides, i);
      }
    }
    if Matching(axisCount, known, overrides) {
      forall i | 0 <= i < |overrides| ensures OverrideIssue(axisCount, known, overrides, i) == None {
        assert NamesKnown(axisCount, known, overrides, i);
      }
    }
  }

  /**
   * A plan is made exactly for unique names and values, a grid within the limit, and overrides matching distinct keys.
   */
  lemma {:induction false} AcceptedIff<T>(axes: seq<Axis>, overrides: seq<Override<T>>, maxVariants: nat)
    ensures PlanVariants(axes, overrides, maxVariants).Ok?
       <==> GoodAxes(axes) && GridCount(axes) <= maxVariants && Matching(|axes|, Keys(Grid(axes)), overrides)
  {
    AxesGood(axes);
    GridSize(axes);
    MatchingIff(|axes|, Keys(Grid(axes)), overrides);
  }

  // ---------------------------------------- keys against the combinations meant

  /** What the request is meant to satisfy: overrides naming distinct combinations of the grid. */
  ghost predicate Intended<T>(axes: seq<Axis>, overrides: seq<Override<T>>) {
    && (forall i :: 0 <= i < |overrides| ==> IsCombination(axes, overrides[i].optionValues))
    && (forall i, j :: 0 <= i < j < |overrides| ==> overrides[i].optionValues != overrides[j].optionValues)
  }

  ghost predicate FreeOfSeparator(axes: seq<Axis>) {
    forall i, v :: 0 <= i < |axes| && v in axes[i].values ==> KEY_SEPARATOR !in v
  }

  /** The keys tell the combinations of these axes apart from every other list of as many values. */
  ghost predicate KeysTell(axes: seq<Axis>) {
    forall c, d :: IsCombination(axes, c) && |d| == |axes| && CombinationKeyOf(c) == CombinationKeyOf(d) ==> c == d
  }

  /**
   * The keys tell the combinations of these axes apart from each other, which is less: other lists may share theirs.
   */
  ghost predicate KeysApart(axes: seq<Axis>) {
    forall c, d :: IsCombination(axes, c) && IsCombination(axes, d) && CombinationKeyOf(c) == CombinationKeyOf(d) ==>
        c == d
  }

  /** Sizes on which no two lists share a key, or values without the separator. */
  ghost predicate Unambiguous(axes: seq<Axis>) {
    |axes| <= 1 || Grid(axes) == [] || FreeOfSeparator(axes)
  }

  lemma {:induction false} UnambiguousTells(axes: seq<Axis>)
    requires Unambiguous(axes)
    ensures KeysTell(axes)
  {
    forall c, d | IsCombination(axes, c) && |d| == |axes| && CombinationKeyOf(c) == CombinationKeyOf(d) ensures c == d {
      if |axes| <= 1 {
        assert |axes| == 1 ==> c == [c[0]] && d == [d[0]];
      } else {
        GridMembers(axes, c);
        assert FreeOf(KEY_SEPARATOR, c);
        JoinInjective(c, d, KEY_SEPARATOR);
      }
    }
  }

  lemma {:induction false} KnownKeys(axes: seq<Axis>, key: string)
    ensures key in Keys(Grid(axes)) <==> exists c :: IsCombination(axes, c) && CombinationKeyOf(c) == key
  {
    forall c ensures c in Grid(axes) <==> IsCombination(axes, c) { GridMembers(axes, c); }
  }

  /** When keys tell combinations apart, matching by key is naming distinct combinations. */
  lemma {:induction false} MatchingIsIntended<T>(axes: seq<Axis>, overrides: seq<Override<T>>)
    requires KeysTell(axes)
    ensures Matching(|axes|, Keys(Grid(axes)), overrides) <==> Intended(axes, overrides)
  {
    forall i | 0 <= i < |overrides|
      ensures NamesKnown(|axes|, Keys(Grid(axes)), overrides, i) <==> IsCombination(axes, overrides[i].optionValues)
    {
      KnownKeys(axes, CombinationKeyOf(overrides[i].optionValues));
    }
  }

  /**
   * The planner accepts what was meant, for every list of overrides, exactly when the axes are refused
   * anyway or keys are unambiguous. The key of a combination is its values joined by a unit separator, so
   * a value that holds one can make two lists of values share a key.
   */
  lemma {:induction false} AcceptsWhatIsMeantIff(axes: seq<Axis>, maxVariants: nat)
    ensures (forall overrides: seq<Override<int>> ::
               PlanVariants(axes, overrides, maxVariants).Ok? <==> GoodAxes(axes) && GridCount(axes) <= maxVariants
                                                                   && Intended(axes, overrides))
       <==> !GoodAxes(axes) || GridCount(axes) > maxVariants || Unambiguous(axes)
  {
    if GoodAxes(axes) && GridCount(axes) <= maxVariants && !Unambiguous(axes) {
      var overrides := Confused(axes);
      AcceptedIff(axes, overrides, maxVariants);
      assert PlanVariants(axes, overrides, maxVariants).Ok? != Intended(axes, overrides);
    } else {
      forall overrides: seq<Override<int>>
        ensures PlanVariants(axes, overrides, maxVariants).Ok? <==> GoodAxes(axes) && GridCount(axes) <= maxVariants
                                                                    && Intended(axes, overrides)
      {
        AcceptedIff(axes, overrides, maxVariants);
        if Unambiguous(axes) {
          UnambiguousTells(axes);
          MatchingIsIntended(axes, overrides);
        }
      }
    }
  }

  const AB := "a\U{001F}b"
  const BC := "b\U{001F}c"

  /** Two axes whose values can be read two ways once joined. */
  function Blurred(): seq<Axis> { [Axis("A", ["a", AB]), Axis("B", ["c", BC])] }

  lemma {:induction false} JoinedPair(x: string, y: string)
    ensures CombinationKeyOf([x, y]) == x + [KEY_SEPARATOR] + y
  {
    var pair := [x, y];
    assert pair[1..] == [y] && Join([y], KEY_SEPARATOR) == y;
    assert Join(pair, KEY_SEPARATOR) == pair[0] + [KEY_SEPARATOR] + Join(pair[1..], KEY_SEPARATOR);
  }

  lemma {:induction false} BlurredIs()
    ensures GoodAxes(Blurred()) && GridCount(Blurred()) == 4
    ensures IsCombination(Blurred(), ["a", BC]) && IsCombination(Blurred(), [AB, "c"]) && ["a", BC] != [AB, "c"]
    ensures CombinationKeyOf(["a", BC]) == CombinationKeyOf([AB, "c"])
  {
    var axes := Blurred();
    assert Names(axes)[0] == "A" && Names(axes)[1] == "B";
    assert |AB| == 3 && |BC| == 3 && |"a"| == 1 && |"c"| == 1;
    assert Distinct(Names(axes)) by { assert "A"[0] != "B"[0]; }
    assert Distinct(["a", AB]) && Distinct(["c", BC]);
    assert UniqueValues(axes);
    assert GridCount(axes[1..]) == 2 && axes[1..][1..] == [];
    JoinedPair("a", BC);
    JoinedPair(AB, "c");
    assert "a" + [KEY_SEPARATOR] + BC == AB + [KEY_SEPARATOR] + "c";
  }

  /** A request that names two combinations of the grid, once each, and is refused: they share their key. */
  lemma {:induction false} RefusesWhatIsMeant(maxVariants: nat)
    requires maxVariants >= 4
    ensures var overrides := [Override(["a", BC], 0), Override([AB, "c"], 1)];
            Intended(Blurred(), overrides) && PlanVariants(Blurred(), overrides, maxVariants).Err?
  {
    BlurredIs();
    var overrides := [Override(["a", BC], 0), Override([AB, "c"], 1)];
    AcceptedIff(Blurred(), overrides, maxVariants);
    assert CombinationKeyOf(overrides[0].optionValues) == CombinationKeyOf(overrides[1].optionValues);
    assert overrides[0].optionValues != overrides[1].optionValues;
  }

  /** A request that names no combination of the grid, and is accepted: its key is that of one. */
  lemma {:induction false} AcceptsWhatIsNotMeant(maxVariants: nat)
    requires maxVariants >= 1
    ensures var axes, overrides := [Axis("A", [AB]), Axis("B", ["c"])], [Override(["a", BC], 0)];
            !Intended(axes, overrides) && PlanVariants(axes, overrides, maxVariants).Ok?
  {
    BlurredIs();
    var axes, overrides := [Axis("A", [AB]), Axis("B", ["c"])], [Override(["a", BC], 0)];
    assert Names(axes)[0] == "A" && Names(axes)[1] == "B";
    assert GridCount(axes[1..]) == 1 && axes[1..][1..] == [];
    assert IsCombination(axes, [AB, "c"]);
    KnownKeys(axes, CombinationKeyOf(overrides[0].optionValues));
    assert NamesKnown(2, Keys(Grid(axes)), overrides, 0);
    AcceptedIff(axes, overrides, maxVariants);
    assert |AB| == 3 && |"a"| == 1;
    assert !IsCombination(axes, overrides[0].optionValues);
  }

  /** Overrides on which matching by key and naming combinations part ways. */
  lemma {:induction false} Confused(axes: seq<Axis>) returns (overrides: seq<Override<int>>)
    requires !Unambiguous(axes)
    ensures Matching(|axes|, Keys(Grid(axes)), overrides) != Intended(axes, overrides)
  {
    var c, d := Collision(axes);
    KnownKeys(axes, CombinationKeyOf(c));
    if IsCombination(axes, d) {
      overrides := [Override(c, 0), Override(d, 0)];
      assert CombinationKeyOf(overrides[0].optionValues) == CombinationKeyOf(overrides[1].optionValues);
      assert !Matching(|axes|, Keys(Grid(axes)), overrides);
    } else {
      overrides := [Override(d, 0)];
      assert NamesKnown(|axes|, Keys(Grid(axes)), overrides, 0);
      assert !IsCombination(axes, overrides[0].optionValues);
    }
  }

  /** A combination holding the separator shares its key with another list of as many values. */
  lemma {:induction false} Collision(axes: seq<Axis>) returns (c: Combination, d: Combination)
    requires !Unambiguous(axes)
    ensures IsCombination(axes, c) && |d| == |axes| && d != c && CombinationKeyOf(c) == CombinationKeyOf(d)
  {
    var i, v :| 0 <= i < |axes| && v in axes[i].values && KEY_SEPARATOR in v;
    c := Grid(axes)[0];
    GridMembers(axes, c);
    c := c[i := v];
    var at := IndexOf(v, KEY_SEPARATOR);
    var x, y := v[..at], v[at + 1..];
    assert v == x + [KEY_SEPARATOR] + y;
    if i + 1 < |axes| {
      d := c[i := x][i + 1 := y + [KEY_SEPARATOR] + c[i + 1]];
      MoveRight(c, i, x, y);
    } else {
      d := c[i := y][i - 1 := c[i - 1] + [KEY_SEPARATOR] + x];
      MoveLeft(c, i, x, y);
    }
    assert |d[i]| < |c[i]|;
  }

  lemma {:induction false} MoveRight(c: Combination, i: nat, x: string, y: string)
    requires i + 1 < |c| && c[i] == x + [KEY_SEPARATOR] + y
    ensures CombinationKeyOf(c[i := x][i + 1 := y + [KEY_SEPARATOR] + c[i + 1]]) == CombinationKeyOf(c)
  {
    var d := c[i := x][i + 1 := y + [KEY_SEPARATOR] + c[i + 1]];
    if i > 0 {
      MoveRight(c[1..], i - 1, x, y);
      assert d[1..] == c[1..][i - 1 := x][i := y + [KEY_SEPARATOR] + c[1..][i]];
    } else {
      JoinHead(c[1..]);
      JoinHead(d[1..]);
      var rest := if |c| == 2 then "" else [KEY_SEPARATOR] + Join(c[2..], KEY_SEPARATOR);
      assert c[1..][1..] == c[2..] && d[1..][1..] == c[2..];
      assert Join(c[1..], KEY_SEPARATOR) == c[1] + rest;
      assert Join(d[1..], KEY_SEPARATOR) == (y + [KEY_SEPARATOR] + c[1]) + rest;
      assert (x + [KEY_SEPARATOR] + y) + [KEY_SEPARATOR] + (c[1] + rest) == x + [KEY_SEPARATOR]
          + ((y + [KEY_SEPARATOR] + c[1]) + rest);
    }
  }

  lemma {:induction false} JoinHead(parts: seq<string>)
    requires parts != []
    ensures Join(parts, KEY_SEPARATOR) == parts[0] + (if |parts| == 1 then ""
                else [KEY_SEPARATOR] + Join(parts[1..], KEY_SEPARATOR))
  {
  }

  lemma {:induction false} MoveLeft(c: Combination, i: nat, x: string, y: string)
    requires 0 < i < |c| && c[i] == x + [KEY_SEPARATOR] + y
    ensures CombinationKeyOf(c[i := y][i - 1 := c[i - 1] + [KEY_SEPARATOR] + x]) == CombinationKeyOf(c)
  {
    var d := c[i := y][i - 1 := c[i - 1] + [KEY_SEPARATOR] + x];
    MoveRight(d, i - 1, c[i - 1], x);
    assert d[i - 1 := c[i - 1]][i := x + [KEY_SEPARATOR] + d[i]] == c;
  }

  // --------------------------------------------------------- what the plan is

  lemma {:induction false} OverrideForAt<T>(overrides: seq<Override<T>>, i: nat)
    requires i < |overrides|
    requires forall j :: 0 <= j < i ==>
                 CombinationKeyOf(overrides[j].optionValues) != CombinationKeyOf(overrides[i].optionValues)
    ensures OverrideFor(overrides, CombinationKeyOf(overrides[i].optionValues)) == Some(overrides[i])
  {
    if i > 0 { OverrideForAt(overrides[1..], i - 1); }
  }

  lemma {:induction false} OverrideForFound<T>(overrides: seq<Override<T>>, key: string) returns (i: nat)
    requires OverrideFor(overrides, key).Some?
    ensures i < |overrides| && overrides[i] == OverrideFor(overrides, key).value
    ensures CombinationKeyOf(overrides[i].optionValues) == key
  {
    if CombinationKeyOf(overrides[0].optionValues) == key {
      i := 0;
    } else {
      i := OverrideForFound(overrides[1..], key);
      i := i + 1;
    }
  }

  /** The plan is the whole grid, in lexicographic axis order, each combination once. */
  lemma {:induction false} PlansAreTheGrid<T>(axes: seq<Axis>, overrides: seq<Override<T>>, maxVariants: nat)
    requires PlanVariants(axes, overrides, maxVariants).Ok?
    ensures var plans := PlanVariants(axes, overrides, maxVariants).value;
            && |plans| == GridCount(axes) <= maxVariants
            && (forall c :: IsCombination(axes, c) <==> exists k :: 0 <= k < |plans| && plans[k].combination == c)
            && (forall k, l :: 0 <= k < l < |plans| ==>
                  && IsCombination(axes, plans[k].combination) && IsCombination(axes, plans[l].combination)
                  && Earlier(axes, plans[k].combination, plans[l].combination)
                  && plans[k].combination != plans[l].combination)
  {
    AcceptedIff(axes, overrides, maxVariants);
    GridSize(axes);
    var g := Grid(axes);
    var plans := PlanVariants(axes, overrides, maxVariants).value;
    forall c ensures IsCombination(axes, c) <==> exists k :: 0 <= k < |plans| && plans[k].combination == c {
      GridMembers(axes, c);
      if c in g {
        var k :| 0 <= k < |g| && g[k] == c;
        assert plans[k].combination == c;
      }
    }
    forall k, l | 0 <= k < l < |plans|
      ensures && IsCombination(axes, plans[k].combination) && IsCombination(axes, plans[l].combination)
              && Earlier(axes, plans[k].combination, plans[l].combination)
              && plans[k].combination != plans[l].combination
    {
      GridOrdered(axes, k, l);
      EarlierDiffers(axes, g[k], g[l]);
    }
  }

  /** The override found for a combination of the grid is one that names it. */
  lemma {:induction false} FoundNames<T>(axes: seq<Axis>, overrides: seq<Override<T>>, maxVariants: nat, c: Combination)
    requires PlanVariants(axes, overrides, maxVariants).Ok? && Unambiguous(axes) && IsCombination(axes, c)
    requires OverrideFor(overrides, CombinationKeyOf(c)).Some?
    ensures var o := OverrideFor(overrides, CombinationKeyOf(c)).value; o in overrides && o.optionValues == c
  {
    AcceptedIff(axes, overrides, maxVariants);
    UnambiguousTells(axes);
    var i := OverrideForFound(overrides, CombinationKeyOf(c));
    assert NamesKnown(|axes|, Keys(Grid(axes)), overrides, i);
  }

  /** The override that names a combination is the one found for it. */
  lemma {:induction false} NamedFound<T>(axes: seq<Axis>, overrides: seq<Override<T>>, maxVariants: nat, i: nat)
    requires PlanVariants(axes, overrides, maxVariants).Ok? && i < |overrides|
    ensures OverrideFor(overrides, CombinationKeyOf(overrides[i].optionValues)) == Some(overrides[i])
  {
    AcceptedIff(axes, overrides, maxVariants);
    OverrideForAt(overrides, i);
  }

  /** When keys are unambiguous: a combination carries an override exactly when one names it, and that one. */
  lemma {:induction false} OverridesLandOnce<T>(axes: seq<Axis>, overrides: seq<Override<T>>, maxVariants: nat)
    requires PlanVariants(axes, overrides, maxVariants).Ok? && Unambiguous(axes)
    ensures var plans := PlanVariants(axes, overrides, maxVariants).value;
            && (forall k, i :: 0 <= k < |plans| && 0 <= i < |overrides| ==>
                  (plans[k].combination == overrides[i].optionValues <==> plans[k].override == Some(overrides[i])))
            && (forall k :: 0 <= k < |plans| && plans[k].override.Some? ==> plans[k].override.value in overrides)
            && (forall i :: 0 <= i < |overrides| ==> exists k :: 0 <= k < |plans|
                                                                 && plans[k].override == Some(overrides[i]))
            && (forall k, l :: 0 <= k < l < |plans| && plans[k].override.Some? ==>
                                   plans[k].override != plans[l].override)
  {
    var plans := PlanVariants(axes, overrides, maxVariants).value;
    PlansAreTheGrid(axes, overrides, maxVariants);
    forall k | 0 <= k < |plans| && plans[k].override.Some?
      ensures plans[k].override.value in overrides && plans[k].override.value.optionValues == plans[k].combination
    {
      FoundNames(axes, overrides, maxVariants, plans[k].combination);
    }
    forall k, i | 0 <= k < |plans| && 0 <= i < |overrides| && plans[k].combination == overrides[i].optionValues
      ensures plans[k].override == Some(overrides[i])
    {
      NamedFound(axes, overrides, maxVariants, i);
    }
    forall i | 0 <= i < |overrides| ensures exists k :: 0 <= k < |plans| && plans[k].override == Some(overrides[i]) {
      NamedPlanned(axes, overrides, maxVariants, i);
      var k :| 0 <= k < |plans| && plans[k].combination == overrides[i].optionValues;
      assert plans[k].override == Some(overrides[i]);
    }
  }

  lemma {:induction false} NamedPlanned<T>(axes: seq<Axis>, overrides: seq<Override<T>>, maxVariants: nat, i: nat)
    requires PlanVariants(axes, overrides, maxVariants).Ok? && Unambiguous(axes) && i < |overrides|
    ensures IsCombination(axes, overrides[i].optionValues)
  {
    AcceptedIff(axes, overrides, maxVariants);
    UnambiguousTells(axes);
    MatchingIsIntended(axes, overrides);
  }
}
