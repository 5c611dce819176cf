/** Small datatypes and sequence facts shared by every component. */
module Prelude {

  datatype Option<+T> = None | Some(value: T) {
    function GetOr(default: T): T {
      match this
      case Some(v) => v
      case None => default
    }
  }

  datatype Result<+T, +E> = Ok(value: T) | Err(error: E)

  function Min(a: int, b: int): int { if a <= b then a else b }

  function Max(a: int, b: int): int { if a >= b then a else b }

  function Elements<T(==)>(s: seq<T>): set<T> { set x | x in s }

  /** No element occurs twice. */
  ghost predicate Distinct<T>(s: seq<T>) {
    forall i, j :: 0 <= i < j < |s| ==> s[i] != s[j]
  }

  /** The elements of `s` that satisfy `keep`, in order. */
  function Filter<T>(keep: T -> bool, s: seq<T>): seq<T> {
    if s == [] then [] else (if keep(s[0]) then [s[0]] else []) + Filter(keep, s[1..])
  }

  /** Where `x` first stands in `s`. */
  function IndexOf<T(==)>(s: seq<T>, x: T): (i: nat)
    requires x in s
    ensures i < |s| && s[i] == x
    ensures forall j :: 0 <= j < i ==> s[j] != x
  {
    if s[0] == x then 0 else 1 + IndexOf(s[1..], x)
  }

  function Map<A, B>(f: A -> B, s: seq<A>): (r: seq<B>)
    ensures |r| == |s|
    ensures forall i :: 0 <= i < |s| ==> r[i] == f(s[i])
  {
    seq(|s|, i requires 0 <= i < |s| => f(s[i]))
  }

  lemma {:induction false} FilterMembers<T>(keep: T -> bool, s: seq<T>, x: T)
    ensures x in Filter(keep, s) <==> x in s && keep(x)
  {
    if s != [] {
      FilterMembers(keep, s[1..], x);
      assert x in s <==> x == s[0] || x in s[1..];
    }
  }

  lemma {:induction false} ConcatAssociative<T>(a: seq<T>, b: seq<T>, c: seq<T>)
    ensures (a + b) + c == a + (b + c)
  {
  }

  lemma {:induction false} FilterDistinct<T>(keep: T -> bool, s: seq<T>)
    requires Distinct(s)
    ensures Distinct(Filter(keep, s))
  {
    if s != [] {
      FilterDistinct(keep, s[1..]);
      assert s[0] !in s[1..];
      FilterMembers(keep, s[1..], s[0]);
    }
  }

  /** A list without repeats is as long as its set of elements. */
  lemma {:induction false} DistinctCardinality<T>(s: seq<T>)
    requires Distinct(s)
    ensures |Elements(s)| == |s|
  {
    if s == [] {
      assert Elements(s) == {};
    } else {
      DistinctCardinality(s[1..]);
      assert s[0] !in s[1..];
      assert Elements(s) == {s[0]} + Elements(s[1..]);
    }
  }

  /** Conversely, a list as long as its set of elements repeats none of them. */
  lemma {:induction false} CardinalityDistinct<T>(s: seq<T>)
    requires |Elements(s)| == |s|
    ensures Distinct(s)
  {
    if s != [] {
      var all, rest := Elements(s), Elements(s[1..]);
      assert all == {s[0]} + rest;
      SetNoLonger(s[1..]);
      CardinalityDistinct(s[1..]);
      assert s[0] !in rest;
      assert forall i :: 0 < i < |s| ==> s[i] == s[1..][i - 1] && s[i] in rest;
    }
  }

  lemma {:induction false} SetNoLonger<T>(s: seq<T>)
    ensures |Elements(s)| <= |s|
  {
    if s == [] {
      assert Elements(s) == {};
    } else {
      SetNoLonger(s[1..]);
      assert Elements(s) == {s[0]} + Elements(s[1..]);
    }
  }

  lemma {:induction false} SameSizeSubset<T>(a: set<T>, b: set<T>)
    requires a <= b && |a| == |b|
    ensures a == b
  {
    assert b == a + (b - a);
  }

  lemma {:induction false} SubsetCardinality<T>(a: set<T>, b: set<T>)
    requires a <= b
    ensures |a| <= |b|
    decreases a
  {
    if a != {} {
      var x :| x in a;
      SubsetCardinality(a - {x}, b - {x});
    }
  }

  lemma {:induction false} Pick<T>(s: set<T>) returns (x: T)
    requires s != {}
    ensures x in s
  {
    x :| x in s;
  }

  /** The greatest element, as SQL's `max` gives it. */
  ghost function MaxOf(s: set<int>): (m: int)
    requires s != {}
    ensures m in s && forall x :: x in s ==> x <= m
  {
    MaxExists(s);
    var m :| m in s && forall x :: x in s ==> x <= m;
    m
  }

  lemma {:induction false} MaxExists(s: set<int>)
    requires s != {}
    ensures exists m :: m in s && forall x :: x in s ==> x <= m
  {
    var x := Pick(s);
    var rest := s - {x};
    assert s == rest + {x};
    if rest != {} {
      MaxExists(rest);
      var y :| y in rest && forall z :: z in rest ==> z <= y;
      var m := if x >= y then x else y;
      assert m in s && forall z :: z in s ==> z <= m;
    } else {
      assert forall z :: z in s ==> z <= x;
    }
  }

  lemma {:induction false} MaxOfIs(s: set<int>, m: int)
    requires m in s && forall x :: x in s ==> x <= m
    ensures MaxOf(s) == m
  {
    assert m <= MaxOf(s) && MaxOf(s) in s;
  }

  method Greatest(s: set<int>) returns (m: int)
    requires s != {}
    ensures m == MaxOf(s)
  {
    ghost var first := Pick(s);
    assert first in s;
    m :| m in s;
    var todo := s - {m};
    while todo != {}
      invariant todo <= s && m in s
      invariant forall x :: x in s && x !in todo ==> x <= m
      decreases |todo|
    {
      ghost var some := Pick(todo);
      assert some in todo;
      var x :| x in todo;
      todo := todo - {x};
      if x > m { m := x; }
    }
    MaxOfIs(s, m);
  }
}
