/** The rows of one product: its axes with their choices, and its variants. */
module ProductRows {
  import opened Prelude
  import opened Texts
  import opened Sorting
  import opened VariantGrid

  datatype Choice = Choice(id: nat, value: string, sortOrder: nat, deleted: bool)

  datatype StoredAxis = StoredAxis(id: nat, name: string, choices: seq<Choice>)

  // ------------------------------------------------------------ live choices

  predicate ByPosition(a: Choice, b: Choice) {
    if a.sortOrder != b.sortOrder then a.sortOrder < b.sortOrder else a.id <= b.id
  }

  predicate IsLive(c: Choice) { !c.deleted }

  /** The live choices of an axis, in display order. */
  function LiveChoices(axis: StoredAxis): seq<Choice> { Sort(ByPosition, Filter(IsLive, axis.choices)) }

  function ValuesIn(choices: seq<Choice>): (values: seq<string>)
    ensures |values| == |choices|
  {
    seq(|choices|, i requires 0 <= i < |choices| => choices[i].value)
  }

  lemma {:induction false} ValuesMember(choices: seq<Choice>, v: string)
    ensures v in ValuesIn(choices) <==> exists c :: c in choices && c.value == v
  {
    var values := ValuesIn(choices);
    if v in values {
      var i :| 0 <= i < |values| && values[i] == v;
      assert choices[i] in choices;
    }
    if c :| c in choices && c.value == v {
      var i :| 0 <= i < |choices| && choices[i] == c;
      assert values[i] == v;
    }
  }

  /** The axes as the planner wants them. */
  function AxesOf(stored: seq<StoredAxis>): (axes: seq<Axis>)
    ensures |axes| == |stored|
  {
    seq(|stored|, i requires 0 <= i < |stored| => Axis(stored[i].name, ValuesIn(LiveChoices(stored[i]))))
  }

  lemma {:induction false} LiveMembers(axis: StoredAxis, c: Choice)
    ensures c in LiveChoices(axis) <==> c in axis.choices && !c.deleted
  {
    SortMembers(ByPosition, Filter(IsLive, axis.choices));
    FilterMembers(IsLive, axis.choices, c);
  }

  /** A live choice of the axis reads `value`. */
  ghost predicate Offers(axis: StoredAxis, value: string) {
    exists c :: c in axis.choices && !c.deleted && c.value == value
  }

  lemma {:induction false} OffersIffListed(axis: StoredAxis, value: string)
    ensures value in ValuesIn(LiveChoices(axis)) <==> Offers(axis, value)
  {
    ValuesMember(LiveChoices(axis), value);
    if value in ValuesIn(LiveChoices(axis)) {
      var c :| c in LiveChoices(axis) && c.value == value;
      LiveMembers(axis, c);
    }
    if Offers(axis, value) {
      var c :| c in axis.choices && !c.deleted && c.value == value;
      LiveMembers(axis, c);
    }
  }

  /** Two choices of one axis never share an id, nor two live ones a value. */
  ghost predicate AxisValid(axis: StoredAxis) {
    && (forall a, b :: 0 <= a < b < |axis.choices| ==> axis.choices[a].id != axis.choices[b].id)
    && (forall c, d :: c in axis.choices && d in axis.choices && !c.deleted && !d.deleted && c.value == d.value ==>
                           c == d)
  }

  lemma {:induction false} LiveValuesDistinct(axis: StoredAxis)
    requires AxisValid(axis)
    ensures Distinct(ValuesIn(LiveChoices(axis)))
  {
    var live := LiveChoices(axis);
    assert Distinct(axis.choices);
    FilterDistinct(IsLive, axis.choices);
    SortDistinct(ByPosition, Filter(IsLive, axis.choices));
    forall i, j | 0 <= i < j < |live| ensures live[i].value != live[j].value {
      LiveMembers(axis, live[i]);
      LiveMembers(axis, live[j]);
      assert live[i] != live[j];
    }
  }

  // ------------------------------------------------- choices by their value

  /** The id of the live choice that reads `value`. */
  ghost function IdFor(axis: StoredAxis, value: string): (id: nat)
    requires Offers(axis, value)
    ensures HoldsId(axis, id)
  {
    var c :| c in axis.choices && !c.deleted && c.value == value;
    c.id
  }

  lemma {:induction false} IdForIs(axis: StoredAxis, c: Choice)
    requires AxisValid(axis) && c in axis.choices && !c.deleted
    ensures IdFor(axis, c.value) == c.id
  {
  }

  /** One offered value per axis. */
  ghost predicate Offered(stored: seq<StoredAxis>, c: Combination) {
    |c| == |stored| && forall i :: 0 <= i < |c| ==> Offers(stored[i], c[i])
  }

  lemma {:induction false} OfferedIffCombination(stored: seq<StoredAxis>, c: Combination)
    ensures Offered(stored, c) <==> IsCombination(AxesOf(stored), c)
  {
    forall i | 0 <= i < |stored| && |c| == |stored|
      ensures c[i] in AxesOf(stored)[i].values <==> Offers(stored[i], c[i])
    {
      OffersIffListed(stored[i], c[i]);
    }
  }

  /** The ids of a combination's choices, in axis order. */
  ghost function IdsFor(stored: seq<StoredAxis>, c: Combination): (ids: seq<nat>)
    requires Offered(stored, c)
    ensures |ids| == |stored|
  {
    seq(|c|, i requires 0 <= i < |c| => IdFor(stored[i], c[i]))
  }

  // ---------------------------------------------------------- apart and signed

  ghost predicate HoldsId(axis: StoredAxis, id: nat) { exists c :: c in axis.choices && c.id == id }

  /** No id belongs to two axes. */
  ghost predicate AxesApart(stored: seq<StoredAxis>) {
    forall i, j, id :: 0 <= i < j < |stored| && HoldsId(stored[i], id) ==> !HoldsId(stored[j], id)
  }

  ghost predicate IdsBelow(axis: StoredAxis, next: nat) { forall c :: c in axis.choices ==> c.id < next }

  ghost predicate AxesValid(stored: seq<StoredAxis>, next: nat) {
    && (forall i {:trigger AxisValid(stored[i])} :: 0 <= i < |stored| ==> AxisValid(stored[i]))
    && AxesApart(stored)
    && (forall i {:trigger IdsBelow(stored[i], next)} :: 0 <= i < |stored| ==> IdsBelow(stored[i], next))
    && (forall i, j :: 0 <= i < j < |stored| ==> stored[i].name != stored[j].name)
  }

  lemma {:induction false} AxesValidLater(stored: seq<StoredAxis>, next: nat, later: nat)
    requires AxesValid(stored, next) && next <= later
    ensures AxesValid(stored, later)
  {
    forall i | 0 <= i < |stored| ensures AxisValid(stored[i]) && IdsBelow(stored[i], later) {
      assert IdsBelow(stored[i], next) && AxisValid(stored[i]);
    }
  }

  /** One id per axis, each held by its own axis, live or not. */
  ghost predicate OneEach(stored: seq<StoredAxis>, ids: seq<nat>) {
    |ids| == |stored| && forall i :: 0 <= i < |ids| ==> HoldsId(stored[i], ids[i])
  }

  lemma {:induction false} IdsForOneEach(stored: seq<StoredAxis>, c: Combination)
    requires Offered(stored, c)
    ensures OneEach(stored, IdsFor(stored, c))
  {
    forall i | 0 <= i < |c| ensures HoldsId(stored[i], IdsFor(stored, c)[i]) { assert Offers(stored[i], c[i]); }
  }

  function IdTexts(ids: seq<nat>): (texts: seq<string>)
    ensures |texts| == |ids|
  {
    seq(|ids|, i requires 0 <= i < |ids| => Dec(ids[i]))
  }

  function SignatureOf(ids: seq<nat>): string { OptionSignatureOf(IdTexts(ids)) }

  lemma {:induction false} TextsAreIds(ids: seq<nat>)
    ensures AreIds(IdTexts(ids))
  {
    forall i | 0 <= i < |ids| ensures OPTION_SIGNATURE_SEPARATOR !in IdTexts(ids)[i] {
      assert IsDigits(Dec(ids[i]));
    }
  }

  lemma {:induction false} SameSignatureMembers(x: seq<nat>, y: seq<nat>, i: nat) returns (j: nat)
    requires SignatureOf(x) == SignatureOf(y) && i < |x|
    ensures j < |y| && y[j] == x[i]
  {
    TextsAreIds(x);
    TextsAreIds(y);
    SignatureIffSameIds(IdTexts(x), IdTexts(y));
    var s, t := IdTexts(x), IdTexts(y);
    assert s[i] in multiset(s);
    assert s[i] in multiset(t);
    j :| 0 <= j < |t| && t[j] == s[i];
    DecInjective(x[i], y[j]);
  }

  /** Among lists of one id per axis, the signature tells which: it forgets the order, but the axes restore it. */
  lemma {:induction false} SignatureTells(stored: seq<StoredAxis>, x: seq<nat>, y: seq<nat>)
    requires AxesApart(stored) && OneEach(stored, x) && OneEach(stored, y)
    ensures SignatureOf(x) == SignatureOf(y) <==> x == y
  {
    if SignatureOf(x) == SignatureOf(y) {
      forall i | 0 <= i < |x| ensures x[i] == y[i] {
        var j := SameSignatureMembers(x, y, i);
        assert HoldsId(stored[i], x[i]) && HoldsId(stored[j], x[i]);
        assert i == j;
      }
    }
  }

  /** Different combinations have different ids, hence different signatures. */
  lemma {:induction false} CombinationsSignApart(stored: seq<StoredAxis>, c: Combination, d: Combination)
    requires AxesApart(stored) && (forall i :: 0 <= i < |stored| ==> AxisValid(stored[i]))
    requires Offered(stored, c) && Offered(stored, d)
    ensures SignatureOf(IdsFor(stored, c)) == SignatureOf(IdsFor(stored, d)) <==> c == d
  {
    IdsForOneEach(stored, c);
    IdsForOneEach(stored, d);
    SignatureTells(stored, IdsFor(stored, c), IdsFor(stored, d));
    if IdsFor(stored, c) == IdsFor(stored, d) {
      forall i | 0 <= i < |c| ensures c[i] == d[i] {
        assert IdFor(stored[i], c[i]) == IdsFor(stored, c)[i] == IdFor(stored[i], d[i]);
        IdTellsValue(stored[i], c[i], d[i]);
      }
    }
  }

  lemma {:induction false} IdTellsValue(axis: StoredAxis, v: string, w: string)
    requires AxisValid(axis) && Offers(axis, v) && Offers(axis, w) && IdFor(axis, v) == IdFor(axis, w)
    ensures v == w
  {
    var a :| 0 <= a < |axis.choices| && !axis.choices[a].deleted && axis.choices[a].value == v;
    var b :| 0 <= b < |axis.choices| && !axis.choices[b].deleted && axis.choices[b].value == w;
    IdForIs(axis, axis.choices[a]);
    IdForIs(axis, axis.choices[b]);
    assert axis.choices[Min(a, b)].id == axis.choices[Max(a, b)].id;
  }

  // ---------------------------------------------- adding and retiring choices

  /** The choices to insert: the values not held yet, numbered from `order` and drawing ids from `next`. */
  function Additions(values: seq<string>, held: seq<string>, order: nat, next: nat): seq<Choice> {
    if values == [] then []
    else if values[0] in held then Additions(values[1..], held, order, next)
    else [Choice(next, values[0], order, false)] + Additions(values[1..], held, order + 1, next + 1)
  }

  function AddTo(axis: StoredAxis, values: seq<string>, next: nat): StoredAxis {
    var live := ValuesIn(LiveChoices(axis));
    axis.(choices := axis.choices + Additions(values, live, |live|, next))
  }

  function RetireUnless(values: seq<string>, c: Choice): Choice {
    if !c.deleted && c.value !in values then c.(deleted := true) else c
  }

  function RetireFrom(axis: StoredAxis, values: seq<string>): StoredAxis {
    axis.(choices := seq(|axis.choices|, i requires 0 <= i < |axis.choices| => RetireUnless(values, axis.choices[i])))
  }

  lemma {:induction false} AdditionAt(values: seq<string>, held: seq<string>, order: nat, next: nat, k: nat)
    requires k < |Additions(values, held, order, next)|
    ensures var c := Additions(values, held, order, next)[k];
            c.id == next + k && c.sortOrder == order + k && !c.deleted && c.value in values && c.value !in held
  {
    if values[0] in held {
      AdditionAt(values[1..], held, order, next, k);
    } else if k > 0 {
      AdditionAt(values[1..], held, order + 1, next + 1, k - 1);
    }
  }

  lemma {:induction false} AdditionsCover(values: seq<string>, held: seq<string>, order: nat, next: nat, v: string)
    returns (k: nat)
    requires v in values && v !in held
    ensures k < |Additions(values, held, order, next)| && Additions(values, held, order, next)[k].value == v
  {
    if values[0] in held {
      k := AdditionsCover(values[1..], held, order, next, v);
    } else if values[0] == v {
      k := 0;
    } else {
      k := AdditionsCover(values[1..], held, order + 1, next + 1, v);
      k := k + 1;
    }
  }

  lemma {:induction false} AdditionsApart(values: seq<string>, held: seq<string>, order: nat, next: nat, k: nat, l: nat)
    requires Distinct(values) && k < l < |Additions(values, held, order, next)|
    ensures Additions(values, held, order, next)[k].value != Additions(values, held, order, next)[l].value
  {
    if values[0] in held {
      AdditionsApart(values[1..], held, order, next, k, l);
    } else if k > 0 {
      AdditionsApart(values[1..], held, order + 1, next + 1, k - 1, l - 1);
    } else {
      AdditionAt(values[1..], held, order + 1, next + 1, l - 1);
    }
  }

  /** The choices inserted on an axis. */
  function Inserted(axis: StoredAxis, values: seq<string>, next: nat): seq<Choice> {
    var live := ValuesIn(LiveChoices(axis));
    Additions(values, live, |live|, next)
  }

  function Revised(axis: StoredAxis, values: seq<string>, next: nat): StoredAxis {
    RetireFrom(AddTo(axis, values, next), values)
  }

  /** Position by position: the old choices, retired where dropped, then the inserted ones. */
  lemma {:induction false} RevisedAt(axis: StoredAxis, values: seq<string>, next: nat)
    ensures var after := Revised(axis, values, next).choices;
            && |after| == |axis.choices| + |Inserted(axis, values, next)|
            && (forall k :: 0 <= k < |axis.choices| ==> after[k] == RetireUnless(values, axis.choices[k]))
            && (forall k :: |axis.choices| <= k < |after| ==>
                                after[k] == Inserted(axis, values, next)[k - |axis.choices|])
  {
    var new_ := Inserted(axis, values, next);
    forall k | 0 <= k < |new_| ensures RetireUnless(values, new_[k]) == new_[k] {
      var live := ValuesIn(LiveChoices(axis));
      AdditionAt(values, live, |live|, next, k);
    }
  }

  /** A choice after the revision is an old one, retired if dropped, or an inserted one. */
  lemma {:induction false} RevisedMember(axis: StoredAxis, values: seq<string>, next: nat, c: Choice)
    requires c in Revised(axis, values, next).choices
    ensures (exists o :: o in axis.choices && c == RetireUnless(values, o))
         || (next <= c.id < next + |Inserted(axis, values, next)| && !c.deleted && c.value in values
             && !Offers(axis, c.value))
  {
    RevisedAt(axis, values, next);
    var after := Revised(axis, values, next).choices;
    var k :| 0 <= k < |after| && after[k] == c;
    if k < |axis.choices| {
      assert axis.choices[k] in axis.choices;
    } else {
      var live := ValuesIn(LiveChoices(axis));
      AdditionAt(values, live, |live|, next, k - |axis.choices|);
      OffersIffListed(axis, c.value);
    }
  }

  lemma {:induction false} RevisedKeeps(axis: StoredAxis, values: seq<string>, next: nat, o: Choice)
    requires o in axis.choices
    ensures RetireUnless(values, o) in Revised(axis, values, next).choices
  {
    RevisedAt(axis, values, next);
    var k :| 0 <= k < |axis.choices| && axis.choices[k] == o;
    assert Revised(axis, values, next).choices[k] == RetireUnless(values, o);
  }

  /** After the revision the axis offers exactly the requested values. */
  lemma {:induction false} RevisedOffers(axis: StoredAxis, values: seq<string>, next: nat, v: string)
    ensures Offers(Revised(axis, values, next), v) <==> v in values
  {
    var after := Revised(axis, values, next);
    if Offers(after, v) {
      var c :| c in after.choices && !c.deleted && c.value == v;
      RevisedMember(axis, values, next, c);
    }
    if v in values {
      if Offers(axis, v) {
        var c :| c in axis.choices && !c.deleted && c.value == v;
        RevisedKeeps(axis, values, next, c);
      } else {
        OffersIffListed(axis, v);
        var live := ValuesIn(LiveChoices(axis));
        var k := AdditionsCover(values, live, |live|, next, v);
        RevisedAt(axis, values, next);
        AdditionAt(values, live, |live|, next, k);
        assert after.choices[|axis.choices| + k] in after.choices;
      }
    }
  }

  lemma {:induction false} RevisedIdsDiffer(axis: StoredAxis, values: seq<string>, next: nat, a: nat, b: nat)
    requires AxisValid(axis) && IdsBelow(axis, next)
    requires a < b < |Revised(axis, values, next).choices|
    ensures Revised(axis, values, next).choices[a].id != Revised(axis, values, next).choices[b].id
  {
    RevisedAt(axis, values, next);
    var n, live := |axis.choices|, ValuesIn(LiveChoices(axis));
    if a >= n { AdditionAt(values, live, |live|, next, a - n); }
    if b >= n { AdditionAt(values, live, |live|, next, b - n); }
    if a < n { assert axis.choices[a] in axis.choices; }
  }

  lemma {:induction false} RevisedLiveSame(axis: StoredAxis, values: seq<string>, next: nat, a: nat, b: nat)
    requires AxisValid(axis) && Distinct(values) && IdsBelow(axis, next)
    requires a < b < |Revised(axis, values, next).choices|
    ensures var c, d := Revised(axis, values, next).choices[a], Revised(axis, values, next).choices[b];
            !(!c.deleted && !d.deleted && c.value == d.value)
  {
    RevisedAt(axis, values, next);
    var after, n, live := Revised(axis, values, next).choices, |axis.choices|, ValuesIn(LiveChoices(axis));
    if b >= n { AdditionAt(values, live, |live|, next, b - n); }
    if a >= n {
      AdditionsApart(values, live, |live|, next, a - n, b - n);
    } else if !after[a].deleted {
      var o := axis.choices[a];
      assert Offers(axis, o.value);
      OffersIffListed(axis, o.value);
      if b < n { assert axis.choices[a].id != axis.choices[b].id; }
    }
  }

  lemma {:induction false} RevisedValid(axis: StoredAxis, values: seq<string>, next: nat)
    requires AxisValid(axis) && Distinct(values) && IdsBelow(axis, next)
    ensures AxisValid(Revised(axis, values, next))
    ensures IdsBelow(Revised(axis, values, next), next + |Inserted(axis, values, next)|)
  {
    var after := Revised(axis, values, next);
    forall a, b | 0 <= a < b < |after.choices| ensures after.choices[a].id != after.choices[b].id {
      RevisedIdsDiffer(axis, values, next, a, b);
    }
    forall c, d | c in after.choices && d in after.choices && !c.deleted && !d.deleted && c.value == d.value
      ensures c == d {
      var a :| 0 <= a < |after.choices| && after.choices[a] == c;
      var b :| 0 <= b < |after.choices| && after.choices[b] == d;
      SameOrApart(axis, values, next, a, b);
    }
    forall c | c in after.choices ensures c.id < next + |Inserted(axis, values, next)| {
      RevisedMember(axis, values, next, c);
    }
  }

  lemma {:induction false} SameOrApart(axis: StoredAxis, values: seq<string>, next: nat, a: nat, b: nat)
    requires AxisValid(axis) && Distinct(values) && IdsBelow(axis, next)
    requires a < |Revised(axis, values, next).choices| && b < |Revised(axis, values, next).choices|
    requires var c, d := Revised(axis, values, next).choices[a], Revised(axis, values, next).choices[b];
             !c.deleted && !d.deleted && c.value == d.value
    ensures a == b
  {
    if a < b { RevisedLiveSame(axis, values, next, a, b); }
    if b < a { RevisedLiveSame(axis, values, next, b, a); }
  }

  /** A value kept by the revision keeps its id; an added one draws a new one. */
  lemma {:induction false} RevisedIds(axis: StoredAxis, values: seq<string>, next: nat, v: string)
    requires AxisValid(axis) && Distinct(values) && IdsBelow(axis, next) && v in values
    ensures var after := Revised(axis, values, next);
            && Offers(after, v)
            && (Offers(axis, v) ==> IdFor(after, v) == IdFor(axis, v))
            && (!Offers(axis, v) ==> IdFor(after, v) >= next)
  {
    var after := Revised(axis, values, next);
    RevisedOffers(axis, values, next, v);
    RevisedValid(axis, values, next);
    if Offers(axis, v) {
      var c :| c in axis.choices && !c.deleted && c.value == v;
      RevisedKeeps(axis, values, next, c);
      IdForIs(axis, c);
      IdForIs(after, c);
    } else {
      var c :| c in after.choices && !c.deleted && c.value == v;
      IdForIs(after, c);
      RevisedMember(axis, values, next, c);
    }
  }

  /** The live choices of an axis come by position, then by id. */
  lemma {:induction false} LiveChoicesOrdered(axis: StoredAxis, i: nat, j: nat)
    requires i < j < |LiveChoices(axis)|
    ensures var a, b := LiveChoices(axis)[i], LiveChoices(axis)[j];
            a.sortOrder < b.sortOrder || (a.sortOrder == b.sortOrder && a.id <= b.id)
  {
    assert TotalPreorder(ByPosition);
    SortSorted(ByPosition, Filter(IsLive, axis.choices));
    assert ByPosition(LiveChoices(axis)[i], LiveChoices(axis)[j]);
  }

  /**
   * A revised axis in its columns: the old choices with their ids, values and positions, retired where their value is
   * not
   * asked for any more, then the new ones, at the end, live.
   */
  lemma {:induction false} RevisedExact(axis: StoredAxis, values: seq<string>, next: nat)
    ensures var after := Revised(axis, values, next);
            && after.id == axis.id && after.name == axis.name && |after.choices| >= |axis.choices|
            && (forall k :: 0 <= k < |axis.choices| ==>
                  after.choices[k] == Choice(axis.choices[k].id, axis.choices[k].value, axis.choices[k].sortOrder,
                                             axis.choices[k].deleted || axis.choices[k].value !in values))
            && (forall k :: |axis.choices| <= k < |after.choices| ==>
                  && after.choices[k].id == next + k - |axis.choices| && !after.choices[k].deleted
                  && after.choices[k].sortOrder == |LiveChoices(axis)| + k - |axis.choices|
                  && after.choices[k].value in values && !Offers(axis, after.choices[k].value))
  {
    var live := ValuesIn(LiveChoices(axis));
    var added := Additions(values, live, |live|, next);
    var after := Revised(axis, values, next);
    forall k | |axis.choices| <= k < |after.choices|
      ensures after.choices[k] == added[k - |axis.choices|] && added[k - |axis.choices|].value in values
      ensures added[k - |axis.choices|] == Choice(next + k - |axis.choices|, added[k - |axis.choices|].value,
                                                  |live| + k - |axis.choices|, false)
      ensures !Offers(axis, after.choices[k].value)
    {
      AdditionAt(values, live, |live|, next, k - |axis.choices|);
      OffersIffListed(axis, added[k - |axis.choices|].value);
    }
  }
}
