/** The cartesian grid of a product's axes, and the signature of one combination. */
module VariantGrid {
  import opened Prelude
  import opened Texts
  import opened Sorting

  datatype Axis = Axis(name: string, values: seq<string>)

  type Combination = seq<string>

  // ------------------------------------------------------------ the grid

  /** `value` in front of each combination. */
  function Prepend(value: string, combinations: seq<Combination>): (r: seq<Combination>)
    ensures |r| == |combinations|
  {
    seq(|combinations|, i requires 0 <= i < |combinations| => [value] + combinations[i])
  }

  function PrependAll(values: seq<string>, combinations: seq<Combination>): seq<Combination> {
    if values == [] then [] else Prepend(values[0], combinations) + PrependAll(values[1..], combinations)
  }

  /** Every choice of one value per axis, the first axis varying slowest. */
  function Grid(axes: seq<Axis>): seq<Combination> {
    if axes == [] then [[]] else PrependAll(axes[0].values, Grid(axes[1..]))
  }

  /** One value per axis, each from its own axis. */
  ghost predicate IsCombination(axes: seq<Axis>, c: Combination) {
    |c| == |axes| && forall i :: 0 <= i < |axes| ==> c[i] in axes[i].values
  }

  ghost predicate UniqueValues(axes: seq<Axis>) {
    forall i :: 0 <= i < |axes| ==> Distinct(axes[i].values)
  }

  function GridCount(axes: seq<Axis>): nat {
    if axes == [] then 1 else |axes[0].values| * GridCount(axes[1..])
  }

  /** `c` comes before `d`: at the first axis where they differ, its value is listed earlier. */
  ghost predicate Earlier(axes: seq<Axis>, c: Combination, d: Combination)
    requires IsCombination(axes, c) && IsCombination(axes, d)
  {
    axes != [] &&
    var i, j := IndexOf(axes[0].values, c[0]), IndexOf(axes[0].values, d[0]);
    i < j || (i == j && Earlier(axes[1..], c[1..], d[1..]))
  }

  lemma {:induction false} PrependAllMembers(values: seq<string>, combinations: seq<Combination>, c: Combination)
    ensures c in PrependAll(values, combinations) <==> |c| > 0 && c[0] in values && c[1..] in combinations
  {
    if values != [] {
      PrependAllMembers(values[1..], combinations, c);
      var front := Prepend(values[0], combinations);
      if c in front {
        var i :| 0 <= i < |front| && front[i] == c;
        assert c[1..] == combinations[i];
      }
      if |c| > 0 && c[0] == values[0] && c[1..] in combinations {
        var i :| 0 <= i < |combinations| && combinations[i] == c[1..];
        assert front[i] == c;
      }
    }
  }

  /** The grid holds exactly the choices of one value per axis. */
  lemma {:induction false} GridMembers(axes: seq<Axis>, c: Combination)
    ensures c in Grid(axes) <==> IsCombination(axes, c)
  {
    if axes == [] {
      assert c in Grid(axes) <==> c == [];
    } else {
      PrependAllMembers(axes[0].values, Grid(axes[1..]), c);
      if |c| > 0 {
        GridMembers(axes[1..], c[1..]);
        if c[0] in axes[0].values && IsCombination(axes[1..], c[1..]) {
          forall i | 0 <= i < |axes| ensures c[i] in axes[i].values {
            if i > 0 { assert c[1..][i - 1] in axes[1..][i - 1].values; }
          }
        }
      }
    }
  }

  lemma {:induction false} PrependAllSize(values: seq<string>, combinations: seq<Combination>)
    ensures |PrependAll(values, combinations)| == |values| * |combinations|
  {
    if values != [] { PrependAllSize(values[1..], combinations); }
  }

  lemma {:induction false} GridSize(axes: seq<Axis>)
    ensures |Grid(axes)| == GridCount(axes)
  {
    if axes != [] {
      GridSize(axes[1..]);
      PrependAllSize(axes[0].values, Grid(axes[1..]));
    }
  }

  /**
   * Two positions of a block of prepended combinations: the earlier has an earlier value, or the same and an earlier
   * rest.
   */
  lemma {:induction false} PrependAllOrder(values: seq<string>, combinations: seq<Combination>, k: nat, l: nat)
    returns (i: nat, p: nat, j: nat, q: nat)
    requires k < l < |PrependAll(values, combinations)|
    ensures i < |values| && p < |combinations| && PrependAll(values, combinations)[k] == [values[i]] + combinations[p]
    ensures j < |values| && q < |combinations| && PrependAll(values, combinations)[l] == [values[j]] + combinations[q]
    ensures i < j || (i == j && p < q)
  {
    var m := |combinations|;
    if l < m {
      i, p, j, q := 0, k, 0, l;
    } else if k < m {
      i, p := 0, k;
      j, q := PrependAllAt(values[1..], combinations, l - m);
      j := j + 1;
    } else {
      i, p, j, q := PrependAllOrder(values[1..], combinations, k - m, l - m);
      i, j := i + 1, j + 1;
    }
  }

  lemma {:induction false} PrependAllAt(values: seq<string>, combinations: seq<Combination>, k: nat)
    returns (i: nat, p: nat)
    requires k < |PrependAll(values, combinations)|
    ensures i < |values| && p < |combinations| && PrependAll(values, combinations)[k] == [values[i]] + combinations[p]
  {
    var m := |combinations|;
    if k < m {
      i, p := 0, k;
    } else {
      i, p := PrependAllAt(values[1..], combinations, k - m);
      i := i + 1;
    }
  }

  lemma {:induction false} IndexAt(values: seq<string>, i: nat)
    requires i < |values| && Distinct(values)
    ensures IndexOf(values, values[i]) == i
  {
    var k := IndexOf(values, values[i]);
  }

  /** With no value repeated on an axis, the grid is listed in lexicographic axis order, strictly. */
  lemma {:induction false} GridOrdered(axes: seq<Axis>, k: nat, l: nat)
    requires UniqueValues(axes) && k < l < |Grid(axes)|
    ensures IsCombination(axes, Grid(axes)[k]) && IsCombination(axes, Grid(axes)[l])
    ensures Earlier(axes, Grid(axes)[k], Grid(axes)[l])
  {
    GridMembers(axes, Grid(axes)[k]);
    GridMembers(axes, Grid(axes)[l]);
    var rest := Grid(axes[1..]);
    var i, p, j, q := PrependAllOrder(axes[0].values, rest, k, l);
    IndexAt(axes[0].values, i);
    IndexAt(axes[0].values, j);
    if i == j {
      assert UniqueValues(axes[1..]);
      GridOrdered(axes[1..], p, q);
      assert Grid(axes)[k][1..] == rest[p] && Grid(axes)[l][1..] == rest[q];
    }
  }

  lemma {:induction false} EarlierDiffers(axes: seq<Axis>, c: Combination, d: Combination)
    requires IsCombination(axes, c) && IsCombination(axes, d) && Earlier(axes, c, d)
    ensures c != d
  {
    if c[0] == d[0] { EarlierDiffers(axes[1..], c[1..], d[1..]); }
  }

  lemma {:induction false} GridDistinct(axes: seq<Axis>)
    requires UniqueValues(axes)
    ensures Distinct(Grid(axes))
  {
    var g := Grid(axes);
    forall k, l | 0 <= k < l < |g| ensures g[k] != g[l] {
      GridOrdered(axes, k, l);
      EarlierDiffers(axes, g[k], g[l]);
    }
  }

  // --------------------------------------------------- the loop that makes it

  function AppendEach(prefix: Combination, values: seq<string>): (r: seq<Combination>)
    ensures |r| == |values|
  {
    seq(|values|, i requires 0 <= i < |values| => prefix + [values[i]])
  }

  /** Every combination followed by every value. */
  function Extend(combinations: seq<Combination>, values: seq<string>): seq<Combination> {
    if combinations == [] then [] else AppendEach(combinations[0], values) + Extend(combinations[1..], values)
  }

  lemma {:induction false} ExtendConcat(a: seq<Combination>, b: seq<Combination>, values: seq<string>)
    ensures Extend(a + b, values) == Extend(a, values) + Extend(b, values)
  {
    if a == [] {
      assert a + b == b;
    } else {
      ExtendConcat(a[1..], b, values);
      assert (a + b)[1..] == a[1..] + b;
      ConcatAssociative(AppendEach(a[0], values), Extend(a[1..], values), Extend(b, values));
    }
  }

  lemma {:induction false} ExtendPrepend(value: string, combinations: seq<Combination>, values: seq<string>)
    ensures Extend(Prepend(value, combinations), values) == Prepend(value, Extend(combinations, values))
  {
    if combinations != [] {
      ExtendPrepend(value, combinations[1..], values);
      assert Prepend(value, combinations)[1..] == Prepend(value, combinations[1..]);
      var head := combinations[0];
      forall i | 0 <= i < |values|
        ensures AppendEach([value] + head, values)[i] == [value] + AppendEach(head, values)[i] { }
      assert AppendEach([value] + head, values) == Prepend(value, AppendEach(head, values));
    }
  }

  lemma {:induction false} ExtendPrependAll(firsts: seq<string>, combinations: seq<Combination>, values: seq<string>)
    ensures Extend(PrependAll(firsts, combinations), values) == PrependAll(firsts, Extend(combinations, values))
  {
    if firsts != [] {
      ExtendPrependAll(firsts[1..], combinations, values);
      ExtendPrepend(firsts[0], combinations, values);
      ExtendConcat(Prepend(firsts[0], combinations), PrependAll(firsts[1..], combinations), values);
    }
  }

  lemma {:induction false} ExtendEmpty(values: seq<string>)
    ensures Extend([[]], values) == PrependAll(values, [[]])
  {
    var e: seq<Combination> := [[]];
    assert e[1..] == [];
    assert Extend(e, values) == AppendEach(e[0], values);
    if values != [] {
      ExtendEmpty(values[1..]);
      var t := values[1..];
      assert Extend(e, t) == AppendEach([], t);
      var none: Combination := [];
      assert none + [values[0]] == [values[0]] == [values[0]] + none;
      assert Prepend(values[0], e) == [[values[0]]];
      assert AppendEach(none, values) == [[values[0]]] + AppendEach(none, t);
    }
  }

  /** Extending the grid of some axes by one more axis gives the grid of all of them. */
  lemma {:induction false} ExtendGrid(axes: seq<Axis>, axis: Axis)
    ensures Extend(Grid(axes), axis.values) == Grid(axes + [axis])
  {
    if axes == [] {
      ExtendEmpty(axis.values);
      assert (axes + [axis])[1..] == [];
    } else {
      ExtendGrid(axes[1..], axis);
      ExtendPrependAll(axes[0].values, Grid(axes[1..]), axis.values);
      assert (axes + [axis])[1..] == axes[1..] + [axis];
    }
  }

  method FlatMap(combinations: seq<Combination>, values: seq<string>) returns (next: seq<Combination>)
    ensures next == Extend(combinations, values)
  {
    next := [];
    for i := 0 to |combinations|
      invariant next == Extend(combinations[..i], values)
    {
      var prefix := combinations[i];
      next := next + seq(|values|, j requires 0 <= j < |values| => prefix + [values[j]]);
      ExtendConcat(combinations[..i], [prefix], values);
      assert combinations[..i + 1] == combinations[..i] + [prefix];
      assert [prefix][1..] == [];
      assert Extend([prefix], values) == AppendEach(prefix, values);
    }
    assert combinations[..|combinations|] == combinations;
  }

  method ExpandCombinations(axes: seq<Axis>) returns (combinations: seq<Combination>)
    ensures combinations == Grid(axes)
  {
    combinations := [[]];
    for i := 0 to |axes|
      invariant combinations == Grid(axes[..i])
    {
      ExtendGrid(axes[..i], axes[i]);
      assert axes[..i + 1] == axes[..i] + [axes[i]];
      combinations := FlatMap(combinations, axes[i].values);
    }
    assert axes[..|axes|] == axes;
  }

  // --------------------------------------------------------------- signature

  const OPTION_SIGNATURE_SEPARATOR: char := '/'

  function OptionSignatureOf(ids: seq<string>): string {
    Join(Sort(TextLeq, ids), OPTION_SIGNATURE_SEPARATOR)
  }

  /** What the ids are assumed to be: not empty and free of the separator, as UUIDs are. */
  ghost predicate AreIds(ids: seq<string>) {
    FreeOf(OPTION_SIGNATURE_SEPARATOR, ids) && forall i :: 0 <= i < |ids| ==> ids[i] != ""
  }

  lemma {:induction false} TextOrder()
    ensures TotalPreorder(TextLeq)
  {
    forall a, b ensures TextLeq(a, b) || TextLeq(b, a) { TextLeqTotal(a, b); }
    forall a, b, c | TextLeq(a, b) && TextLeq(b, c) ensures TextLeq(a, c) { TextLeqTransitive(a, b, c); }
  }

  lemma {:induction false} SortedIds(ids: seq<string>)
    requires AreIds(ids)
    ensures AreIds(Sort(TextLeq, ids))
  {
    var s := Sort(TextLeq, ids);
    SortMembers(TextLeq, ids);
    forall i | 0 <= i < |s| ensures OPTION_SIGNATURE_SEPARATOR !in s[i] && s[i] != "" {
      assert s[i] in s;
      assert s[i] in ids;
    }
  }

  /** Joined ids determine the list, whatever the two lengths are. */
  lemma {:induction false} JoinedIds(a: seq<string>, b: seq<string>)
    requires AreIds(a) && AreIds(b)
    requires Join(a, OPTION_SIGNATURE_SEPARATOR) == Join(b, OPTION_SIGNATURE_SEPARATOR)
    ensures a == b
  {
    var sep := OPTION_SIGNATURE_SEPARATOR;
    if a != [] { JoinCount(a, sep); }
    if b != [] { JoinCount(b, sep); }
    if |a| == |b| {
      JoinInjective(a, b, sep);
    } else if a == [] {
      JoinNotEmpty(b);
    } else if b == [] {
      JoinNotEmpty(a);
    }
  }

  lemma {:induction false} JoinNotEmpty(a: seq<string>)
    requires AreIds(a) && a != []
    ensures Join(a, OPTION_SIGNATURE_SEPARATOR) != ""
  {
  }

  /** What a signature looks like: the ids in text order, with slashes between them. */
  lemma {:induction false} SignatureOfTwo(a: string, b: string)
    requires TextLeq(a, b)
    ensures OptionSignatureOf([a, b]) == a + "/" + b
    ensures OptionSignatureOf([b, a]) == a + "/" + b
  {
    SortedTwo(a, b);
    assert [a, b][1..] == [b];
    assert Join([b], OPTION_SIGNATURE_SEPARATOR) == b;
    assert a + [OPTION_SIGNATURE_SEPARATOR] + b == a + "/" + b;
  }

  lemma {:induction false} SortedTwo(a: string, b: string)
    requires TextLeq(a, b)
    ensures Sort(TextLeq, [a, b]) == [a, b] == Sort(TextLeq, [b, a])
  {
    SortedOne(a);
    SortedOne(b);
    assert [a, b][1..] == [b] && [b, a][1..] == [a];
    assert Sort(TextLeq, [a, b]) == Insert(TextLeq, a, [b]);
    assert Sort(TextLeq, [b, a]) == Insert(TextLeq, b, [a]);
    if TextLeq(b, a) { TextLeqAntisymmetric(a, b); }
  }

  lemma {:induction false} SortedOne(x: string)
    ensures Sort(TextLeq, [x]) == [x]
  {
    assert [x][1..] == [];
  }

  /** A signature is a property of the ids chosen, not of the order they were listed in, and of nothing less. */
  lemma {:induction false} SignatureIffSameIds(a: seq<string>, b: seq<string>)
    requires AreIds(a) && AreIds(b)
    ensures OptionSignatureOf(a) == OptionSignatureOf(b) <==> multiset(a) == multiset(b)
  {
    var s, t := Sort(TextLeq, a), Sort(TextLeq, b);
    SortedIds(a);
    SortedIds(b);
    TextOrder();
    SortSorted(TextLeq, a);
    SortSorted(TextLeq, b);
    SortRearranges(TextLeq, a);
    SortRearranges(TextLeq, b);
    if OptionSignatureOf(a) == OptionSignatureOf(b) { JoinedIds(s, t); }
    if multiset(a) == multiset(b) {
      forall i, j | 0 <= i < |s| && 0 <= j < |s| && TextLeq(s[i], s[j]) && TextLeq(s[j], s[i]) ensures s[i] == s[j] {
        TextLeqAntisymmetric(s[i], s[j]);
      }
      SortedUnique(TextLeq, s, t);
    }
  }

  /** The same for sets, when neither list repeats an id. */
  lemma {:induction false} SignatureIffSameSet(a: seq<string>, b: seq<string>)
    requires AreIds(a) && AreIds(b) && Distinct(a) && Distinct(b)
    ensures OptionSignatureOf(a) == OptionSignatureOf(b) <==> Elements(a) == Elements(b)
  {
    SignatureIffSameIds(a, b);
    if multiset(a) == multiset(b) {
      forall x ensures x in Elements(a) <==> x in Elements(b) {
        assert x in a <==> x in multiset(a);
        assert x in b <==> x in multiset(b);
      }
    }
    if Elements(a) == Elements(b) {
      forall x ensures multiset(a)[x] == multiset(b)[x] {
        CountAtMostOne(a, x);
        CountAtMostOne(b, x);
        assert x in multiset(a) <==> x in a;
        assert x in multiset(b) <==> x in b;
        assert x in a <==> x in Elements(a);
        assert x in b <==> x in Elements(b);
      }
    }
  }
}
