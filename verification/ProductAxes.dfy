/** Revising all the axes of a product together, and the ids a combination is written with. */
module ProductAxes {
  import opened Prelude
  import opened VariantGrid
  import opened ProductRows

  function NewCount(values: seq<string>, held: seq<string>): nat {
    if values == [] then 0 else (if values[0] in held then 0 else 1) + NewCount(values[1..], held)
  }

  lemma {:induction false} AdditionsCount(values: seq<string>, held: seq<string>, order: nat, next: nat)
    ensures |Additions(values, held, order, next)| == NewCount(values, held)
  {
    if values != [] {
      AdditionsCount(values[1..], held, order, next);
      AdditionsCount(values[1..], held, order + 1, next + 1);
    }
  }

  /** How many choices each axis gains. */
  function NewCounts(stored: seq<StoredAxis>, axes: seq<Axis>): (counts: seq<nat>)
    requires |stored| == |axes|
    ensures |counts| == |stored|
  {
    seq(|stored|, i requires 0 <= i < |stored| => NewCount(axes[i].values, ValuesIn(LiveChoices(stored[i]))))
  }

  function Sum(counts: seq<nat>, n: nat): nat
    requires n <= |counts|
  {
    if n == 0 then 0 else Sum(counts, n - 1) + counts[n - 1]
  }

  lemma {:induction false} SumMonotone(counts: seq<nat>, m: nat, n: nat)
    requires m <= n <= |counts|
    ensures Sum(counts, m) <= Sum(counts, n)
  {
    if m < n { SumMonotone(counts, m, n - 1); }
  }

  /** The first id the `n`-th axis may draw: each axis before it drew one per inserted choice. */
  function NextAt(stored: seq<StoredAxis>, axes: seq<Axis>, next: nat, n: nat): nat
    requires |stored| == |axes| && n <= |stored|
  {
    next + Sum(NewCounts(stored, axes), n)
  }

  lemma {:induction false} NextMonotone(stored: seq<StoredAxis>, axes: seq<Axis>, next: nat, m: nat, n: nat)
    requires |stored| == |axes| && m <= n <= |stored|
    ensures next <= NextAt(stored, axes, next, m) <= NextAt(stored, axes, next, n)
  {
    SumMonotone(NewCounts(stored, axes), m, n);
  }

  lemma {:induction false} NextStep(stored: seq<StoredAxis>, axes: seq<Axis>, next: nat, i: nat)
    requires |stored| == |axes| && i < |stored|
    ensures NextAt(stored, axes, next, i + 1)
         == NextAt(stored, axes, next, i) + |Inserted(stored[i], axes[i].values, NextAt(stored, axes, next, i))|
  {
    var live := ValuesIn(LiveChoices(stored[i]));
    AdditionsCount(axes[i].values, live, |live|, NextAt(stored, axes, next, i));
  }

  /** The axes with the requested choices added, none retired yet. */
  function AddAll(stored: seq<StoredAxis>, axes: seq<Axis>, next: nat): (current: seq<StoredAxis>)
    requires |stored| == |axes|
    ensures |current| == |stored|
  {
    seq(|stored|, i requires 0 <= i < |stored| => AddTo(stored[i], axes[i].values, NextAt(stored, axes, next, i)))
  }

  function RetireAll(current: seq<StoredAxis>, axes: seq<Axis>): (after: seq<StoredAxis>)
    requires |current| == |axes|
    ensures |after| == |current|
  {
    seq(|current|, i requires 0 <= i < |current| => RetireFrom(current[i], axes[i].values))
  }

  function ReviseAll(stored: seq<StoredAxis>, axes: seq<Axis>, next: nat): (after: seq<StoredAxis>)
    requires |stored| == |axes|
    ensures |after| == |stored|
    ensures forall i :: 0 <= i < |stored| ==>
                after[i] == Revised(stored[i], axes[i].values, NextAt(stored, axes, next, i))
  {
    RetireAll(AddAll(stored, axes, next), axes)
  }

  lemma {:induction false} AxisBelow(stored: seq<StoredAxis>, axes: seq<Axis>, next: nat, i: nat)
    requires |stored| == |axes| && AxesValid(stored, next) && i < |stored|
    ensures IdsBelow(stored[i], NextAt(stored, axes, next, i))
  {
    NextMonotone(stored, axes, next, i, i);
    assert IdsBelow(stored[i], next);
  }

  /** An id on a revised axis was there before, or lies in the range that axis drew. */
  lemma {:induction false} RevisedHolds(stored: seq<StoredAxis>, axes: seq<Axis>, next: nat, i: nat, id: nat)
    requires |stored| == |axes| && AxesValid(stored, next) && i < |stored|
    requires HoldsId(ReviseAll(stored, axes, next)[i], id)
    ensures HoldsId(stored[i], id) || NextAt(stored, axes, next, i) <= id < NextAt(stored, axes, next, i + 1)
  {
    var after := ReviseAll(stored, axes, next)[i];
    var c :| c in after.choices && c.id == id;
    NextStep(stored, axes, next, i);
    RevisedMember(stored[i], axes[i].values, NextAt(stored, axes, next, i), c);
    if o :| o in stored[i].choices && c == RetireUnless(axes[i].values, o) { assert o.id == id; }
  }

  lemma {:induction false} HeldBelow(stored: seq<StoredAxis>, next: nat, i: nat, id: nat)
    requires AxesValid(stored, next) && i < |stored| && HoldsId(stored[i], id)
    ensures id < next
  {
    assert IdsBelow(stored[i], next);
    var c :| c in stored[i].choices && c.id == id;
  }

  lemma {:induction false} HoldsKept(stored: seq<StoredAxis>, axes: seq<Axis>, next: nat, i: nat, id: nat)
    requires |stored| == |axes| && i < |stored| && HoldsId(stored[i], id)
    ensures HoldsId(ReviseAll(stored, axes, next)[i], id)
  {
    var c :| c in stored[i].choices && c.id == id;
    RevisedKeeps(stored[i], axes[i].values, NextAt(stored, axes, next, i), c);
    assert RetireUnless(axes[i].values, c).id == id;
  }

  lemma {:induction false} OneEachKept(stored: seq<StoredAxis>, axes: seq<Axis>, next: nat, ids: seq<nat>)
    requires |stored| == |axes| && OneEach(stored, ids)
    ensures OneEach(ReviseAll(stored, axes, next), ids)
  {
    forall i | 0 <= i < |ids| ensures HoldsId(ReviseAll(stored, axes, next)[i], ids[i]) {
      HoldsKept(stored, axes, next, i, ids[i]);
    }
  }

  /** Told by the id alone: below `next` it is an old one of that axis, otherwise it lies in the axis's own range. */
  ghost predicate Belongs(axis: StoredAxis, next: nat, lo: nat, hi: nat, id: nat) {
    if id < next then HoldsId(axis, id) else lo <= id < hi
  }

  lemma {:induction false} RevisedRange(stored: seq<StoredAxis>, axes: seq<Axis>, next: nat, i: nat, id: nat)
    requires |stored| == |axes| && AxesValid(stored, next) && i < |stored|
    requires HoldsId(ReviseAll(stored, axes, next)[i], id)
    ensures Belongs(stored[i], next, NextAt(stored, axes, next, i), NextAt(stored, axes, next, i + 1), id)
  {
    RevisedHolds(stored, axes, next, i, id);
    NextMonotone(stored, axes, next, i, i);
    if HoldsId(stored[i], id) { HeldBelow(stored, next, i, id); }
  }

  lemma {:induction false} RevisedApart(stored: seq<StoredAxis>, axes: seq<Axis>, next: nat, i: nat, j: nat, id: nat)
    requires |stored| == |axes| && AxesApart(stored) && i < j < |stored|
    requires Belongs(stored[i], next, NextAt(stored, axes, next, i), NextAt(stored, axes, next, i + 1), id)
    ensures !Belongs(stored[j], next, NextAt(stored, axes, next, j), NextAt(stored, axes, next, j + 1), id)
  {
    NextMonotone(stored, axes, next, i + 1, j);
  }

  ghost predicate ValuesUnique(axes: seq<Axis>) { forall i :: 0 <= i < |axes| ==> Distinct(axes[i].values) }

  lemma {:induction false} RevisedAxisValid(stored: seq<StoredAxis>, axes: seq<Axis>, next: nat, i: nat)
    requires |stored| == |axes| && AxesValid(stored, next) && ValuesUnique(axes) && i < |stored|
    ensures AxisValid(ReviseAll(stored, axes, next)[i])
    ensures IdsBelow(ReviseAll(stored, axes, next)[i], NextAt(stored, axes, next, |stored|))
    ensures ReviseAll(stored, axes, next)[i].name == stored[i].name
  {
    AxisBelow(stored, axes, next, i);
    RevisedValid(stored[i], axes[i].values, NextAt(stored, axes, next, i));
    NextStep(stored, axes, next, i);
    NextMonotone(stored, axes, next, i + 1, |stored|);
  }

  lemma {:induction false} RevisedAxesValid(stored: seq<StoredAxis>, axes: seq<Axis>, next: nat)
    requires |stored| == |axes| && AxesValid(stored, next) && ValuesUnique(axes)
    ensures AxesValid(ReviseAll(stored, axes, next), NextAt(stored, axes, next, |stored|))
  {
    var after := ReviseAll(stored, axes, next);
    forall i | 0 <= i < |stored|
      ensures AxisValid(after[i]) && IdsBelow(after[i], NextAt(stored, axes, next, |stored|))
      ensures after[i].name == stored[i].name
    {
      RevisedAxisValid(stored, axes, next, i);
    }
    forall i, id | 0 <= i < |after| && HoldsId(after[i], id)
      ensures Belongs(stored[i], next, NextAt(stored, axes, next, i), NextAt(stored, axes, next, i + 1), id)
    {
      RevisedRange(stored, axes, next, i, id);
    }
    forall i, j, id | 0 <= i < j < |after| && HoldsId(after[i], id) ensures !HoldsId(after[j], id) {
      RevisedApart(stored, axes, next, i, j, id);
    }
  }

  /** After the revision exactly the combinations of the requested axes are on offer. */
  lemma {:induction false} RevisedOffered(stored: seq<StoredAxis>, axes: seq<Axis>, next: nat, c: Combination)
    requires |stored| == |axes|
    ensures Offered(ReviseAll(stored, axes, next), c) <==> IsCombination(axes, c)
  {
    forall i | 0 <= i < |stored| && |c| == |stored|
      ensures Offers(ReviseAll(stored, axes, next)[i], c[i]) <==> c[i] in axes[i].values
    {
      RevisedOffers(stored[i], axes[i].values, NextAt(stored, axes, next, i), c[i]);
    }
  }

  // -------------------------------------------------------- looking ids up

  /** The id of the first choice that reads `value`; 0 stands for the empty id of a value that is not there. */
  function ChoiceId(choices: seq<Choice>, value: string): nat {
    if choices == [] then 0
    else if choices[0].value == value then choices[0].id
    else ChoiceId(choices[1..], value)
  }

  function ValueIdsOf(current: seq<StoredAxis>, c: Combination): (ids: seq<nat>)
    ensures |ids| == |c|
  {
    seq(|c|, i requires 0 <= i < |c| => if i < |current| then ChoiceId(LiveChoices(current[i]), c[i]) else 0)
  }

  lemma {:induction false} ChoiceFound(choices: seq<Choice>, value: string) returns (c: Choice)
    requires exists c :: c in choices && c.value == value
    ensures c in choices && c.value == value && ChoiceId(choices, value) == c.id
  {
    if choices[0].value == value {
      c := choices[0];
    } else {
      c := ChoiceFound(choices[1..], value);
    }
  }

  /** Looked up before the retirements, a requested value has the id it has after them. */
  lemma {:induction false} LookupIsIdFor(axis: StoredAxis, values: seq<string>, next: nat, v: string)
    requires AxisValid(axis) && Distinct(values) && IdsBelow(axis, next) && v in values
    ensures Offers(Revised(axis, values, next), v)
    ensures ChoiceId(LiveChoices(AddTo(axis, values, next)), v) == IdFor(Revised(axis, values, next), v)
  {
    var added, after := AddTo(axis, values, next), Revised(axis, values, next);
    RevisedOffers(axis, values, next, v);
    RevisedValid(axis, values, next);
    var c :| c in after.choices && !c.deleted && c.value == v;
    var k :| 0 <= k < |after.choices| && after.choices[k] == c;
    assert added.choices[k] == c;
    LiveMembers(added, c);
    var found := ChoiceFound(LiveChoices(added), v);
    LiveMembers(added, found);
    var l :| 0 <= l < |added.choices| && added.choices[l] == found;
    assert after.choices[l] == found;
    IdForIs(after, found);
  }

  lemma {:induction false} LookupIsIdsFor(stored: seq<StoredAxis>, axes: seq<Axis>, next: nat, c: Combination)
    requires |stored| == |axes| && AxesValid(stored, next) && ValuesUnique(axes) && IsCombination(axes, c)
    ensures Offered(ReviseAll(stored, axes, next), c)
    ensures ValueIdsOf(AddAll(stored, axes, next), c) == IdsFor(ReviseAll(stored, axes, next), c)
  {
    RevisedOffered(stored, axes, next, c);
    forall i | 0 <= i < |c|
      ensures ValueIdsOf(AddAll(stored, axes, next), c)[i] == IdsFor(ReviseAll(stored, axes, next), c)[i]
    {
      AxisBelow(stored, axes, next, i);
      LookupIsIdFor(stored[i], axes[i].values, NextAt(stored, axes, next, i), c[i]);
    }
  }

  // ------------------------------------------------------ the axes of a new product

  /** Axes with no choices yet, each under its own id. */
  function Blank(axes: seq<Axis>, next: nat): (stored: seq<StoredAxis>)
    ensures |stored| == |axes|
  {
    if axes == [] then [] else [StoredAxis(next, axes[0].name, [])] + Blank(axes[1..], next + 1)
  }

  lemma {:induction false} BlankAt(axes: seq<Axis>, next: nat, i: nat)
    requires i < |axes|
    ensures Blank(axes, next)[i] == StoredAxis(next + i, axes[i].name, [])
  {
    if i > 0 { BlankAt(axes[1..], next + 1, i - 1); }
  }

  lemma {:induction false} BlankValid(axes: seq<Axis>, next: nat)
    requires forall i, j :: 0 <= i < j < |axes| ==> axes[i].name != axes[j].name
    ensures AxesValid(Blank(axes, next), next + |axes|)
  {
    forall i | 0 <= i < |axes| ensures Blank(axes, next)[i] == StoredAxis(next + i, axes[i].name, []) {
      BlankAt(axes, next, i);
    }
  }

  // -------------------------------------------------------------- the sizes

  lemma {:induction false} SameSizes(a: seq<Axis>, b: seq<Axis>)
    requires |a| == |b| && forall i :: 0 <= i < |a| ==> |a[i].values| == |b[i].values|
    ensures GridCount(a) == GridCount(b)
  {
    if a != [] { SameSizes(a[1..], b[1..]); }
  }

  lemma {:induction false} SameMembersSameLength(s: seq<string>, t: seq<string>)
    requires Distinct(s) && Distinct(t) && forall v :: v in s <==> v in t
    ensures |s| == |t|
  {
    DistinctCardinality(s);
    DistinctCardinality(t);
    assert Elements(s) == Elements(t);
  }

  /** The stored axes then make as many combinations as the requested ones. */
  lemma {:induction false} RevisedProduct(stored: seq<StoredAxis>, axes: seq<Axis>, next: nat)
    requires |stored| == |axes| && AxesValid(stored, next) && ValuesUnique(axes)
    ensures GridCount(AxesOf(ReviseAll(stored, axes, next))) == GridCount(axes)
  {
    var after := ReviseAll(stored, axes, next);
    RevisedAxesValid(stored, axes, next);
    forall i | 0 <= i < |after| ensures |AxesOf(after)[i].values| == |axes[i].values| {
      LiveValuesDistinct(after[i]);
      forall v ensures v in ValuesIn(LiveChoices(after[i])) <==> v in axes[i].values {
        OffersIffListed(after[i], v);
        RevisedOffers(stored[i], axes[i].values, NextAt(stored, axes, next, i), v);
      }
      SameMembersSameLength(ValuesIn(LiveChoices(after[i])), axes[i].values);
    }
    SameSizes(AxesOf(after), axes);
  }
}
