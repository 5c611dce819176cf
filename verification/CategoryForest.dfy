/** Rebuilding the nested category tree from the flat, shallowest-first rows of one query. */
module CategoryForest {
  import opened Prelude

  datatype Node = Node(id: nat, parentId: Option<nat>, name: string, depth: int, sortOrder: int)

  datatype Tree = Tree(row: Node, children: seq<Tree>)

  /** Rows as the query returns them: one per id, by depth, each a level below its parent if that is present. */
  ghost predicate Arrives(rows: seq<Node>) {
    && (forall i, j :: 0 <= i < j < |rows| ==> rows[i].id != rows[j].id && rows[i].depth <= rows[j].depth)
    && (forall i, j :: 0 <= i < |rows| && 0 <= j < |rows| && rows[j].parentId == Some(rows[i].id) ==>
                           rows[j].depth == rows[i].depth + 1)
  }

  /** A top of the answer: the asked-for node, or every node without a parent. */
  predicate IsTop(row: Node, rootId: Option<nat>) {
    if rootId.None? then row.parentId.None? else row.id == rootId.value
  }

  /** Row `c` belongs in the child list of row `p`. */
  predicate Link(rows: seq<Node>, rootId: Option<nat>, p: nat, c: nat)
    requires p < |rows| && c < |rows|
  {
    !IsTop(rows[c], rootId) && rows[c].parentId == Some(rows[p].id)
  }

  lemma {:induction false} ParentEarlier(rows: seq<Node>, rootId: Option<nat>, p: nat, c: nat)
    requires Arrives(rows) && p < |rows| && c < |rows| && Link(rows, rootId, p, c)
    ensures p < c
  {
  }

  // ---------------------------------------------------------- specification

  /** Positions below `hi` that are children of row `k`, in input order. */
  function Kids(rows: seq<Node>, rootId: Option<nat>, k: nat, hi: nat): (ks: seq<nat>)
    requires k < |rows| && hi <= |rows|
    ensures forall i :: 0 <= i < |ks| ==> k < ks[i] < hi && Link(rows, rootId, k, ks[i])
    ensures forall i, j :: 0 <= i < j < |ks| ==> ks[i] < ks[j]
    ensures forall c :: k < c < hi && Link(rows, rootId, k, c) ==> c in ks
    decreases hi
  {
    if hi <= k + 1 then []
    else Kids(rows, rootId, k, hi - 1) + (if Link(rows, rootId, k, hi - 1) then [hi - 1] else [])
  }

  /** Positions below `hi` that are tops, in input order. */
  function Tops(rows: seq<Node>, rootId: Option<nat>, hi: nat): (ks: seq<nat>)
    requires hi <= |rows|
    ensures forall i :: 0 <= i < |ks| ==> ks[i] < hi && IsTop(rows[ks[i]], rootId)
    ensures forall i, j :: 0 <= i < j < |ks| ==> ks[i] < ks[j]
    ensures forall c :: 0 <= c < hi && IsTop(rows[c], rootId) ==> c in ks
  {
    if hi == 0 then []
    else Tops(rows, rootId, hi - 1) + (if IsTop(rows[hi - 1], rootId) then [hi - 1] else [])
  }

  function TreeAt(rows: seq<Node>, rootId: Option<nat>, k: nat): Tree
    requires k < |rows|
    decreases |rows| - k
  {
    var ks := Kids(rows, rootId, k, |rows|);
    Tree(rows[k], seq(|ks|, i requires 0 <= i < |ks| => TreeAt(rows, rootId, ks[i])))
  }

  function Trees(rows: seq<Node>, rootId: Option<nat>, ks: seq<nat>): (trees: seq<Tree>)
    requires forall i :: 0 <= i < |ks| ==> ks[i] < |rows|
    ensures |trees| == |ks| && forall i :: 0 <= i < |ks| ==> trees[i] == TreeAt(rows, rootId, ks[i])
  {
    seq(|ks|, i requires 0 <= i < |ks| => TreeAt(rows, rootId, ks[i]))
  }

  lemma {:induction false} TreeAtIs(rows: seq<Node>, rootId: Option<nat>, k: nat)
    requires k < |rows|
    ensures TreeAt(rows, rootId, k) == Tree(rows[k], Trees(rows, rootId, Kids(rows, rootId, k, |rows|)))
  {
  }

  function ForestOf(rows: seq<Node>, rootId: Option<nat>): seq<Tree> { Trees(rows, rootId, Tops(rows, rootId, |rows|)) }

  /** Depth first: a root, then all that hangs below it, then the other roots. */
  function FlattenForest(forest: seq<Tree>): seq<Node>
    decreases forest
  {
    if forest == [] then []
    else [forest[0].row] + FlattenForest(forest[0].children) + FlattenForest(forest[1..])
  }

  // -------------------------------------------- positions in preorder

  /** The positions of the subtree at `k`, parents first. */
  ghost function Pre(rows: seq<Node>, rootId: Option<nat>, k: nat): (s: seq<nat>)
    requires k < |rows|
    ensures |s| > 0 && s[0] == k
    ensures forall i :: 0 <= i < |s| ==> s[i] < |rows|
    decreases |rows| - k, 1
  {
    var ks := Kids(rows, rootId, k, |rows|);
    [k] + PreAll(rows, rootId, ks, k + 1)
  }

  ghost function PreAll(rows: seq<Node>, rootId: Option<nat>, ks: seq<nat>, from: nat): (s: seq<nat>)
    requires forall i :: 0 <= i < |ks| ==> from <= ks[i] < |rows|
    ensures forall i :: 0 <= i < |s| ==> s[i] < |rows|
    decreases if from <= |rows| then |rows| - from + 1 else 0, 0, |ks|
  {
    if ks == [] then [] else Pre(rows, rootId, ks[0]) + PreAll(rows, rootId, ks[1..], from)
  }

  function RowsAt(rows: seq<Node>, ks: seq<nat>): seq<Node>
    requires forall i :: 0 <= i < |ks| ==> ks[i] < |rows|
  {
    seq(|ks|, i requires 0 <= i < |ks| => rows[ks[i]])
  }

  lemma {:induction false} FlattenCons(trees: seq<Tree>, row: Node, children: seq<Tree>)
    requires trees != [] && trees[0] == Tree(row, children)
    ensures FlattenForest(trees) == [row] + FlattenForest(children) + FlattenForest(trees[1..])
  {
  }

  lemma {:induction false} FlattenTrees(rows: seq<Node>, rootId: Option<nat>, ks: seq<nat>)
    requires ks != [] && forall i :: 0 <= i < |ks| ==> ks[i] < |rows|
    ensures FlattenForest(Trees(rows, rootId, ks))
         == [rows[ks[0]]] + FlattenForest(Trees(rows, rootId, Kids(rows, rootId, ks[0], |rows|)))
             + FlattenForest(Trees(rows, rootId, ks[1..]))
  {
    var trees := Trees(rows, rootId, ks);
    TreeAtIs(rows, rootId, ks[0]);
    assert trees[1..] == Trees(rows, rootId, ks[1..]);
    FlattenCons(trees, rows[ks[0]], Trees(rows, rootId, Kids(rows, rootId, ks[0], |rows|)));
  }

  lemma {:induction false} PreAllStep(rows: seq<Node>, rootId: Option<nat>, ks: seq<nat>, from: nat)
    requires ks != [] && forall i :: 0 <= i < |ks| ==> from <= ks[i] < |rows|
    ensures PreAll(rows, rootId, ks, from)
         == [ks[0]] + PreAll(rows, rootId, Kids(rows, rootId, ks[0], |rows|), ks[0] + 1)
             + PreAll(rows, rootId, ks[1..], from)
  {
  }

  lemma {:induction false} FlattenPositions(rows: seq<Node>, rootId: Option<nat>, ks: seq<nat>, from: nat)
    requires forall i :: 0 <= i < |ks| ==> from <= ks[i] < |rows|
    ensures FlattenForest(Trees(rows, rootId, ks)) == RowsAt(rows, PreAll(rows, rootId, ks, from))
    decreases if from <= |rows| then |rows| - from + 1 else 0, |ks|
  {
    if ks != [] {
      FlattenPositions(rows, rootId, ks[1..], from);
      FlattenPositions(rows, rootId, Kids(rows, rootId, ks[0], |rows|), ks[0] + 1);
      FlattenTrees(rows, rootId, ks);
      PreAllStep(rows, rootId, ks, from);
      RowsAtConcat(rows, ks[0], PreAll(rows, rootId, Kids(rows, rootId, ks[0], |rows|), ks[0] + 1),
                   PreAll(rows, rootId, ks[1..], from));
    }
  }

  lemma {:induction false} RowsAtConcat(rows: seq<Node>, k: nat, below: seq<nat>, after: seq<nat>)
    requires k < |rows|
    requires forall i :: 0 <= i < |below| ==> below[i] < |rows|
    requires forall i :: 0 <= i < |after| ==> after[i] < |rows|
    ensures RowsAt(rows, [k] + below + after) == [rows[k]] + RowsAt(rows, below) + RowsAt(rows, after)
  {
  }

  // --------------------------------------------------------------- ancestry

  /** Position `i` is `k` or lies below it, by links. */
  ghost predicate Under(rows: seq<Node>, rootId: Option<nat>, k: nat, i: nat)
    requires k < |rows| && i < |rows|
    decreases i
  {
    i == k || exists p :: 0 <= p < i && Link(rows, rootId, p, i) && Under(rows, rootId, k, p)
  }

  lemma {:induction false} UnderLe(rows: seq<Node>, rootId: Option<nat>, k: nat, i: nat)
    requires k < |rows| && i < |rows| && Under(rows, rootId, k, i)
    ensures k <= i
    decreases i
  {
    if i != k {
      var p :| 0 <= p < i && Link(rows, rootId, p, i) && Under(rows, rootId, k, p);
      UnderLe(rows, rootId, k, p);
    }
  }

  lemma {:induction false} UnderLinear(rows: seq<Node>, rootId: Option<nat>, a: nat, b: nat, i: nat)
    requires Arrives(rows) && a < |rows| && b < |rows| && i < |rows|
    requires Under(rows, rootId, a, i) && Under(rows, rootId, b, i)
    ensures Under(rows, rootId, a, b) || Under(rows, rootId, b, a)
    decreases i
  {
    if a != i && b != i {
      var p :| 0 <= p < i && Link(rows, rootId, p, i) && Under(rows, rootId, a, p);
      var q :| 0 <= q < i && Link(rows, rootId, q, i) && Under(rows, rootId, b, q);
      assert rows[p].id == rows[q].id;
      assert p == q;
      UnderLinear(rows, rootId, a, b, p);
    }
  }

  /** Below `k` but not `k` itself means below one of its children. */
  lemma {:induction false} UnderChild(rows: seq<Node>, rootId: Option<nat>, k: nat, i: nat) returns (c: nat)
    requires Arrives(rows) && k < |rows| && i < |rows| && Under(rows, rootId, k, i) && i != k
    ensures c in Kids(rows, rootId, k, |rows|) && Under(rows, rootId, c, i)
    decreases i
  {
    var p :| 0 <= p < i && Link(rows, rootId, p, i) && Under(rows, rootId, k, p);
    if p == k {
      c := i;
    } else {
      c := UnderChild(rows, rootId, k, p);
    }
  }

  lemma {:induction false} UnderTransitive(rows: seq<Node>, rootId: Option<nat>, k: nat, c: nat, i: nat)
    requires k < |rows| && c < |rows| && i < |rows|
    requires Under(rows, rootId, k, c) && Under(rows, rootId, c, i)
    ensures Under(rows, rootId, k, i)
    decreases i
  {
    if i != c {
      var p :| 0 <= p < i && Link(rows, rootId, p, i) && Under(rows, rootId, c, p);
      UnderTransitive(rows, rootId, k, c, p);
    }
  }

  /** No member lies below another, so their subtrees share nothing. */
  ghost predicate Antichain(rows: seq<Node>, rootId: Option<nat>, ks: seq<nat>) {
    && (forall x :: 0 <= x < |ks| ==> ks[x] < |rows|)
    && (forall x, y :: 0 <= x < |ks| && 0 <= y < |ks| && x != y ==> !Under(rows, rootId, ks[x], ks[y]))
  }

  lemma {:induction false} SiblingNotUnder(rows: seq<Node>, rootId: Option<nat>, k: nat, c: nat, d: nat)
    requires Arrives(rows) && k < |rows| && c < |rows| && d < |rows| && c != d
    requires Link(rows, rootId, k, c) && Link(rows, rootId, k, d)
    ensures !Under(rows, rootId, c, d)
  {
    ParentEarlier(rows, rootId, k, c);
    if Under(rows, rootId, c, d) {
      var p :| 0 <= p < d && Link(rows, rootId, p, d) && Under(rows, rootId, c, p);
      UnderLe(rows, rootId, c, p);
    }
  }

  lemma {:induction false} KidsAntichain(rows: seq<Node>, rootId: Option<nat>, k: nat)
    requires Arrives(rows) && k < |rows|
    ensures Antichain(rows, rootId, Kids(rows, rootId, k, |rows|))
  {
    var ks := Kids(rows, rootId, k, |rows|);
    forall x, y | 0 <= x < |ks| && 0 <= y < |ks| && x != y ensures !Under(rows, rootId, ks[x], ks[y]) {
      SiblingNotUnder(rows, rootId, k, ks[x], ks[y]);
    }
  }

  lemma {:induction false} TopsAntichain(rows: seq<Node>, rootId: Option<nat>)
    ensures Antichain(rows, rootId, Tops(rows, rootId, |rows|))
  {
  }

  // ---------------------------------------------------- contents of preorder

  /** Below one of the given positions, or one of them. */
  ghost predicate UnderOne(rows: seq<Node>, rootId: Option<nat>, ks: seq<nat>, i: nat)
    requires i < |rows| && forall x :: 0 <= x < |ks| ==> ks[x] < |rows|
  {
    exists x :: 0 <= x < |ks| && Under(rows, rootId, ks[x], i)
  }

  lemma {:induction false} UnderKid(rows: seq<Node>, rootId: Option<nat>, k: nat, c: nat)
    requires k < |rows| && c in Kids(rows, rootId, k, |rows|)
    ensures Under(rows, rootId, k, c)
  {
    assert Under(rows, rootId, k, k);
  }

  lemma {:induction false} UnderIff(rows: seq<Node>, rootId: Option<nat>, k: nat, i: nat)
    requires Arrives(rows) && k < |rows| && i < |rows|
    ensures Under(rows, rootId, k, i) <==> i == k || UnderOne(rows, rootId, Kids(rows, rootId, k, |rows|), i)
  {
    var ks := Kids(rows, rootId, k, |rows|);
    if Under(rows, rootId, k, i) && i != k {
      var c := UnderChild(rows, rootId, k, i);
    }
    if x :| 0 <= x < |ks| && Under(rows, rootId, ks[x], i) {
      UnderKid(rows, rootId, k, ks[x]);
      UnderTransitive(rows, rootId, k, ks[x], i);
    }
  }

  lemma {:induction false} PreSplit(rows: seq<Node>, rootId: Option<nat>, k: nat, i: nat)
    requires k < |rows|
    ensures i in Pre(rows, rootId, k) <==> i == k || i in PreAll(rows, rootId, Kids(rows, rootId, k, |rows|), k + 1)
  {
  }

  lemma {:induction false} PreMembers(rows: seq<Node>, rootId: Option<nat>, k: nat, i: nat)
    requires Arrives(rows) && k < |rows| && i < |rows|
    ensures i in Pre(rows, rootId, k) <==> Under(rows, rootId, k, i)
    decreases |rows| - k, 1
  {
    PreAllMembers(rows, rootId, Kids(rows, rootId, k, |rows|), k + 1, i);
    UnderIff(rows, rootId, k, i);
    PreSplit(rows, rootId, k, i);
  }

  lemma {:induction false} PreAllMembers(rows: seq<Node>, rootId: Option<nat>, ks: seq<nat>, from: nat, i: nat)
    requires Arrives(rows) && i < |rows|
    requires forall x :: 0 <= x < |ks| ==> from <= ks[x] < |rows|
    ensures i in PreAll(rows, rootId, ks, from) <==> UnderOne(rows, rootId, ks, i)
    decreases if from <= |rows| then |rows| - from + 1 else 0, 0, |ks|
  {
    if ks != [] {
      PreMembers(rows, rootId, ks[0], i);
      PreAllMembers(rows, rootId, ks[1..], from, i);
      if x :| 0 <= x < |ks| && Under(rows, rootId, ks[x], i) {
        if x > 0 { assert Under(rows, rootId, ks[1..][x - 1], i); }
      }
      if x :| 0 <= x < |ks[1..]| && Under(rows, rootId, ks[1..][x], i) {
        assert Under(rows, rootId, ks[x + 1], i);
      }
    }
  }

  lemma {:induction false} DistinctConcat<T>(a: seq<T>, b: seq<T>)
    requires Distinct(a) && Distinct(b) && forall x :: 0 <= x < |a| ==> a[x] !in b
    ensures Distinct(a + b)
  {
  }

  lemma {:induction false} PreDistinct(rows: seq<Node>, rootId: Option<nat>, k: nat)
    requires Arrives(rows) && k < |rows|
    ensures Distinct(Pre(rows, rootId, k))
    decreases |rows| - k, 1
  {
    var ks := Kids(rows, rootId, k, |rows|);
    KidsAntichain(rows, rootId, k);
    PreAllDistinct(rows, rootId, ks, k + 1);
    PreAllMembers(rows, rootId, ks, k + 1, k);
    forall x | 0 <= x < |ks| ensures !Under(rows, rootId, ks[x], k) {
      if Under(rows, rootId, ks[x], k) { UnderLe(rows, rootId, ks[x], k); }
    }
    DistinctConcat([k], PreAll(rows, rootId, ks, k + 1));
  }

  lemma {:induction false} PreAllDistinct(rows: seq<Node>, rootId: Option<nat>, ks: seq<nat>, from: nat)
    requires Arrives(rows) && Antichain(rows, rootId, ks)
    requires forall x :: 0 <= x < |ks| ==> from <= ks[x] < |rows|
    ensures Distinct(PreAll(rows, rootId, ks, from))
    decreases if from <= |rows| then |rows| - from + 1 else 0, 0, |ks|
  {
    if ks != [] {
      var rest := ks[1..];
      PreDistinct(rows, rootId, ks[0]);
      assert Antichain(rows, rootId, rest) by {
        assert forall x :: 0 <= x < |rest| ==> rest[x] == ks[x + 1];
      }
      PreAllDistinct(rows, rootId, rest, from);
      var a, b := Pre(rows, rootId, ks[0]), PreAll(rows, rootId, rest, from);
      forall x | 0 <= x < |a| ensures a[x] !in b {
        PreMembers(rows, rootId, ks[0], a[x]);
        PreAllMembers(rows, rootId, rest, from, a[x]);
        forall y | 0 <= y < |rest| ensures !Under(rows, rootId, rest[y], a[x]) {
          assert rest[y] == ks[y + 1];
          if Under(rows, rootId, rest[y], a[x]) { UnderLinear(rows, rootId, ks[0], rest[y], a[x]); }
        }
      }
      DistinctConcat(a, b);
    }
  }

  // ------------------------------------------------------- order of preorder

  ghost predicate Before<T>(s: seq<T>, a: T, b: T) { exists x, y :: 0 <= x < y < |s| && s[x] == a && s[y] == b }

  lemma {:induction false} BeforeInside<T>(u: seq<T>, s: seq<T>, v: seq<T>, a: T, b: T)
    requires Before(s, a, b)
    ensures Before(u + s + v, a, b)
  {
    var x, y :| 0 <= x < y < |s| && s[x] == a && s[y] == b;
    var w := u + s + v;
    assert w[|u| + x] == a && w[|u| + y] == b;
  }

  lemma {:induction false} BeforeAcross<T>(u: seq<T>, v: seq<T>, a: T, b: T)
    requires a in u && b in v
    ensures Before(u + v, a, b)
  {
    var x :| 0 <= x < |u| && u[x] == a;
    var y :| 0 <= y < |v| && v[y] == b;
    assert (u + v)[x] == a && (u + v)[|u| + y] == b;
  }

  /** The subtree of one member stands in one piece inside the whole. */
  lemma {:induction false} PreInside(rows: seq<Node>, rootId: Option<nat>, ks: seq<nat>, from: nat, x: nat, a: nat,
                                     b: nat)
    requires forall i :: 0 <= i < |ks| ==> from <= ks[i] < |rows|
    requires x < |ks| && Before(Pre(rows, rootId, ks[x]), a, b)
    ensures Before(PreAll(rows, rootId, ks, from), a, b)
    decreases |ks|
  {
    var rest := PreAll(rows, rootId, ks[1..], from);
    if x == 0 {
      BeforeInside([], Pre(rows, rootId, ks[0]), rest, a, b);
      assert [] + Pre(rows, rootId, ks[0]) + rest == Pre(rows, rootId, ks[0]) + rest;
    } else {
      PreInside(rows, rootId, ks[1..], from, x - 1, a, b);
      BeforeInside(Pre(rows, rootId, ks[0]), rest, [], a, b);
      assert Pre(rows, rootId, ks[0]) + rest + [] == Pre(rows, rootId, ks[0]) + rest;
    }
  }

  lemma {:induction false} HeadsInOrder(rows: seq<Node>, rootId: Option<nat>, ks: seq<nat>, from: nat, x: nat, y: nat)
    requires Arrives(rows)
    requires forall i :: 0 <= i < |ks| ==> from <= ks[i] < |rows|
    requires x < y < |ks|
    ensures Before(PreAll(rows, rootId, ks, from), ks[x], ks[y])
    decreases |ks|
  {
    var head, rest := Pre(rows, rootId, ks[0]), PreAll(rows, rootId, ks[1..], from);
    if x == 0 {
      PreAllMembers(rows, rootId, ks[1..], from, ks[y]);
      assert ks[1..][y - 1] == ks[y] && Under(rows, rootId, ks[1..][y - 1], ks[y]);
      BeforeAcross(head, rest, ks[x], ks[y]);
    } else {
      HeadsInOrder(rows, rootId, ks[1..], from, x - 1, y - 1);
      BeforeInside(head, rest, [], ks[x], ks[y]);
      assert head + rest + [] == head + rest;
    }
  }

  lemma {:induction false} BelowInside(rows: seq<Node>, rootId: Option<nat>, k: nat, a: nat, b: nat)
    requires k < |rows| && Before(PreAll(rows, rootId, Kids(rows, rootId, k, |rows|), k + 1), a, b)
    ensures Before(Pre(rows, rootId, k), a, b)
  {
    var below := PreAll(rows, rootId, Kids(rows, rootId, k, |rows|), k + 1);
    BeforeInside([k], below, [], a, b);
    assert [k] + below + [] == [k] + below;
  }

  lemma {:induction false} KidAt(rows: seq<Node>, rootId: Option<nat>, k: nat, c: nat) returns (x: nat)
    requires Arrives(rows) && k < |rows| && c < |rows| && Link(rows, rootId, k, c)
    ensures k < c && x < |Kids(rows, rootId, k, |rows|)| && Kids(rows, rootId, k, |rows|)[x] == c
  {
    ParentEarlier(rows, rootId, k, c);
    x :| 0 <= x < |Kids(rows, rootId, k, |rows|)| && Kids(rows, rootId, k, |rows|)[x] == c;
  }

  lemma {:induction false} KidPair(rows: seq<Node>, rootId: Option<nat>, k: nat, a: nat, b: nat)
    returns (x: nat, y: nat)
    requires Arrives(rows) && k < |rows| && a < b < |rows| && Link(rows, rootId, k, a) && Link(rows, rootId, k, b)
    ensures x < y < |Kids(rows, rootId, k, |rows|)|
    ensures Kids(rows, rootId, k, |rows|)[x] == a && Kids(rows, rootId, k, |rows|)[y] == b
  {
    x := KidAt(rows, rootId, k, a);
    y := KidAt(rows, rootId, k, b);
  }

  lemma {:induction false} KidAfter(rows: seq<Node>, rootId: Option<nat>, k: nat, c: nat)
    requires Arrives(rows) && k < |rows| && c < |rows| && Link(rows, rootId, k, c)
    ensures Before(Pre(rows, rootId, k), k, c)
  {
    var x := KidAt(rows, rootId, k, c);
    var below := PreAll(rows, rootId, Kids(rows, rootId, k, |rows|), k + 1);
    assert Under(rows, rootId, c, c);
    PreAllMembers(rows, rootId, Kids(rows, rootId, k, |rows|), k + 1, c);
    BeforeAcross([k], below, k, c);
  }

  lemma {:induction false} ParentFirst(rows: seq<Node>, rootId: Option<nat>, k: nat, p: nat, c: nat)
    requires Arrives(rows) && k < |rows| && p < |rows| && c < |rows|
    requires Under(rows, rootId, k, p) && Link(rows, rootId, p, c)
    ensures Before(Pre(rows, rootId, k), p, c)
    decreases |rows| - k
  {
    if p == k {
      KidAfter(rows, rootId, k, c);
    } else {
      var d := UnderChild(rows, rootId, k, p);
      ParentFirst(rows, rootId, d, p, c);
      KidInside(rows, rootId, k, d, p, c);
    }
  }

  lemma {:induction false} KidsInOrder(rows: seq<Node>, rootId: Option<nat>, k: nat, a: nat, b: nat)
    requires Arrives(rows) && k < |rows| && a < b < |rows|
    requires Link(rows, rootId, k, a) && Link(rows, rootId, k, b)
    ensures Before(Pre(rows, rootId, k), a, b)
  {
    var x, y := KidPair(rows, rootId, k, a, b);
    HeadsInOrder(rows, rootId, Kids(rows, rootId, k, |rows|), k + 1, x, y);
    BelowInside(rows, rootId, k, a, b);
  }

  lemma {:induction false} SiblingsInOrder(rows: seq<Node>, rootId: Option<nat>, k: nat, p: nat, a: nat, b: nat)
    requires Arrives(rows) && k < |rows| && p < |rows| && a < b < |rows|
    requires Under(rows, rootId, k, p) && Link(rows, rootId, p, a) && Link(rows, rootId, p, b)
    ensures Before(Pre(rows, rootId, k), a, b)
    decreases |rows| - k
  {
    if p == k {
      KidsInOrder(rows, rootId, k, a, b);
    } else {
      var d := UnderChild(rows, rootId, k, p);
      SiblingsInOrder(rows, rootId, d, p, a, b);
      KidInside(rows, rootId, k, d, a, b);
    }
  }

  lemma {:induction false} KidInside(rows: seq<Node>, rootId: Option<nat>, k: nat, d: nat, a: nat, b: nat)
    requires k < |rows| && d in Kids(rows, rootId, k, |rows|) && Before(Pre(rows, rootId, d), a, b)
    ensures Before(Pre(rows, rootId, k), a, b)
  {
    var ks := Kids(rows, rootId, k, |rows|);
    PreInside(rows, rootId, ks, k + 1, IndexOf(ks, d), a, b);
    BelowInside(rows, rootId, k, a, b);
  }

  // ------------------------------------------------------------- the theorem

  /** `chain` leads from a top of the answer down to row `k`, every row of it present. */
  ghost predicate ChainTo(rows: seq<Node>, rootId: Option<nat>, chain: seq<nat>, k: nat) {
    && chain != [] && chain[|chain| - 1] == k
    && (forall i :: 0 <= i < |chain| ==> chain[i] < |rows|)
    && IsTop(rows[chain[0]], rootId)
    && (forall i :: 0 < i < |chain| ==> Link(rows, rootId, chain[i - 1], chain[i]))
  }

  ghost predicate Kept(rows: seq<Node>, rootId: Option<nat>, k: nat) { exists chain :: ChainTo(rows, rootId, chain, k) }

  lemma {:induction false} ChainUnder(rows: seq<Node>, rootId: Option<nat>, chain: seq<nat>, k: nat)
    requires Arrives(rows) && ChainTo(rows, rootId, chain, k)
    ensures Under(rows, rootId, chain[0], k)
    decreases |chain|
  {
    if |chain| > 1 {
      var n := |chain| - 1;
      ChainUnder(rows, rootId, chain[..n], chain[n - 1]);
      ParentEarlier(rows, rootId, chain[n - 1], k);
    }
  }

  lemma {:induction false} UnderChain(rows: seq<Node>, rootId: Option<nat>, t: nat, k: nat) returns (chain: seq<nat>)
    requires t < |rows| && k < |rows| && IsTop(rows[t], rootId) && Under(rows, rootId, t, k)
    ensures ChainTo(rows, rootId, chain, k)
    decreases k
  {
    if k == t {
      chain := [t];
    } else {
      var p :| 0 <= p < k && Link(rows, rootId, p, k) && Under(rows, rootId, t, p);
      var up := UnderChain(rows, rootId, t, p);
      chain := up + [k];
    }
  }

  /** The positions of everything below a top, as they are listed. */
  ghost function ListedAt(rows: seq<Node>, rootId: Option<nat>): (at: seq<nat>)
    ensures forall i :: 0 <= i < |at| ==> at[i] < |rows|
  {
    PreAll(rows, rootId, Tops(rows, rootId, |rows|), 0)
  }

  lemma {:induction false} KeptUnder(rows: seq<Node>, rootId: Option<nat>, k: nat)
    requires Arrives(rows) && k < |rows|
    ensures Kept(rows, rootId, k) <==> UnderOne(rows, rootId, Tops(rows, rootId, |rows|), k)
  {
    var ks := Tops(rows, rootId, |rows|);
    if chain :| ChainTo(rows, rootId, chain, k) {
      ChainUnder(rows, rootId, chain, k);
      var x :| 0 <= x < |ks| && ks[x] == chain[0];
      assert Under(rows, rootId, ks[x], k);
    }
    if x :| 0 <= x < |ks| && Under(rows, rootId, ks[x], k) {
      var chain := UnderChain(rows, rootId, ks[x], k);
    }
  }

  lemma {:induction false} KeptIff(rows: seq<Node>, rootId: Option<nat>, k: nat)
    requires Arrives(rows) && k < |rows|
    ensures Kept(rows, rootId, k) <==> k in ListedAt(rows, rootId)
  {
    KeptUnder(rows, rootId, k);
    PreAllMembers(rows, rootId, Tops(rows, rootId, |rows|), 0, k);
  }

  ghost function Listed(rows: seq<Node>, rootId: Option<nat>): seq<Node> { FlattenForest(ForestOf(rows, rootId)) }

  lemma {:induction false} ListedIs(rows: seq<Node>, rootId: Option<nat>)
    ensures Listed(rows, rootId) == RowsAt(rows, ListedAt(rows, rootId))
  {
    FlattenPositions(rows, rootId, Tops(rows, rootId, |rows|), 0);
  }

  lemma {:induction false} ListedAtDistinct(rows: seq<Node>, rootId: Option<nat>)
    requires Arrives(rows)
    ensures Distinct(ListedAt(rows, rootId))
  {
    TopsAntichain(rows, rootId);
    PreAllDistinct(rows, rootId, Tops(rows, rootId, |rows|), 0);
  }

  /**
   * Flattening the forest yields exactly the rows whose whole ancestor chain up to a top is present,
   * each of them once; a row below a missing one never resurfaces.
   */
  lemma {:induction false} FlattenIsKept(rows: seq<Node>, rootId: Option<nat>)
    requires Arrives(rows)
    ensures Distinct(Listed(rows, rootId))
    ensures forall i :: 0 <= i < |Listed(rows, rootId)| ==> Listed(rows, rootId)[i] in rows
    ensures forall k :: 0 <= k < |rows| ==> (rows[k] in Listed(rows, rootId) <==> Kept(rows, rootId, k))
  {
    var at := ListedAt(rows, rootId);
    ListedIs(rows, rootId);
    ListedAtDistinct(rows, rootId);
    RowsAtDistinct(rows, at);
    forall k | 0 <= k < |rows| ensures rows[k] in RowsAt(rows, at) <==> Kept(rows, rootId, k) {
      KeptIff(rows, rootId, k);
      RowsAtMembers(rows, at, k);
    }
  }

  lemma {:induction false} RowsAtDistinct(rows: seq<Node>, at: seq<nat>)
    requires Arrives(rows) && Distinct(at) && forall i :: 0 <= i < |at| ==> at[i] < |rows|
    ensures Distinct(RowsAt(rows, at))
  {
    var out := RowsAt(rows, at);
    forall i, j | 0 <= i < j < |out| ensures out[i] != out[j] {
      assert at[i] != at[j];
      assert rows[at[i]].id != rows[at[j]].id;
    }
  }

  lemma {:induction false} RowsAtMembers(rows: seq<Node>, at: seq<nat>, k: nat)
    requires Arrives(rows) && k < |rows| && forall i :: 0 <= i < |at| ==> at[i] < |rows|
    ensures rows[k] in RowsAt(rows, at) <==> k in at
  {
    var out := RowsAt(rows, at);
    if k in at {
      var i :| 0 <= i < |at| && at[i] == k;
      assert out[i] == rows[k];
    }
    if rows[k] in out {
      var i :| 0 <= i < |out| && out[i] == rows[k];
      assert rows[at[i]].id == rows[k].id;
      assert at[i] == k;
    }
  }

  lemma {:induction false} KeptBelowTop(rows: seq<Node>, rootId: Option<nat>, p: nat) returns (x: nat)
    requires Arrives(rows) && p < |rows| && Kept(rows, rootId, p)
    ensures x < |Tops(rows, rootId, |rows|)| && Under(rows, rootId, Tops(rows, rootId, |rows|)[x], p)
  {
    var ks := Tops(rows, rootId, |rows|);
    var chain :| ChainTo(rows, rootId, chain, p);
    ChainUnder(rows, rootId, chain, p);
    x :| 0 <= x < |ks| && ks[x] == chain[0];
  }

  lemma {:induction false} ListedInOrder(rows: seq<Node>, rootId: Option<nat>, a: nat, b: nat)
    requires a < |rows| && b < |rows| && Before(ListedAt(rows, rootId), a, b)
    ensures Before(Listed(rows, rootId), rows[a], rows[b])
  {
    ListedIs(rows, rootId);
    BeforeRows(rows, ListedAt(rows, rootId), a, b);
  }

  /** Below a root asked for, only that root starts a tree: a row without a parent that is another is left out. */
  lemma {:induction false} StrayTopLeftOut(rows: seq<Node>, root: nat, k: nat)
    requires Arrives(rows) && k < |rows| && rows[k].parentId.None? && rows[k].id != root
    ensures rows[k] !in Listed(rows, Some(root))
  {
    FlattenIsKept(rows, Some(root));
    if Kept(rows, Some(root), k) { TopOrBelow(rows, Some(root), k); }
  }

  lemma {:induction false} TopOrBelow(rows: seq<Node>, rootId: Option<nat>, k: nat)
    requires k < |rows| && Kept(rows, rootId, k)
    ensures IsTop(rows[k], rootId) || rows[k].parentId.Some?
  {
    var chain :| ChainTo(rows, rootId, chain, k);
    var last := |chain| - 1;
    assert last > 0 ==> Link(rows, rootId, chain[last - 1], chain[last]);
  }

  /** Parents come before their children. */
  lemma {:induction false} FlattenParentsFirst(rows: seq<Node>, rootId: Option<nat>, p: nat, c: nat)
    requires Arrives(rows) && p < |rows| && c < |rows| && Kept(rows, rootId, p) && Link(rows, rootId, p, c)
    ensures Before(Listed(rows, rootId), rows[p], rows[c])
  {
    var ks := Tops(rows, rootId, |rows|);
    var x := KeptBelowTop(rows, rootId, p);
    ParentFirst(rows, rootId, ks[x], p, c);
    PreInside(rows, rootId, ks, 0, x, p, c);
    ListedInOrder(rows, rootId, p, c);
  }

  /** The children of one parent keep the order they arrived in. */
  lemma {:induction false} FlattenSiblingsInOrder(rows: seq<Node>, rootId: Option<nat>, p: nat, a: nat, b: nat)
    requires Arrives(rows) && p < |rows| && a < b < |rows| && Kept(rows, rootId, p)
    requires Link(rows, rootId, p, a) && Link(rows, rootId, p, b)
    ensures Before(Listed(rows, rootId), rows[a], rows[b])
  {
    var ks := Tops(rows, rootId, |rows|);
    var x := KeptBelowTop(rows, rootId, p);
    SiblingsInOrder(rows, rootId, ks[x], p, a, b);
    PreInside(rows, rootId, ks, 0, x, a, b);
    ListedInOrder(rows, rootId, a, b);
  }

  /** And so do the tops. */
  lemma {:induction false} FlattenTopsInOrder(rows: seq<Node>, rootId: Option<nat>, a: nat, b: nat)
    requires Arrives(rows) && a < b < |rows| && IsTop(rows[a], rootId) && IsTop(rows[b], rootId)
    ensures Before(Listed(rows, rootId), rows[a], rows[b])
  {
    var ks := Tops(rows, rootId, |rows|);
    var x :| 0 <= x < |ks| && ks[x] == a;
    var y :| 0 <= y < |ks| && ks[y] == b;
    HeadsInOrder(rows, rootId, ks, 0, x, y);
    ListedInOrder(rows, rootId, a, b);
  }

  lemma {:induction false} BeforeRows(rows: seq<Node>, at: seq<nat>, a: nat, b: nat)
    requires forall i :: 0 <= i < |at| ==> at[i] < |rows|
    requires a < |rows| && b < |rows| && Before(at, a, b)
    ensures Before(RowsAt(rows, at), rows[a], rows[b])
  {
    var x, y :| 0 <= x < y < |at| && at[x] == a && at[y] == b;
    assert RowsAt(rows, at)[x] == rows[a] && RowsAt(rows, at)[y] == rows[b];
  }

  // ------------------------------------------------------------- who hangs below whom

  /** Below a node of the forest hang exactly the rows that name it as their parent, and so on down. */
  ghost predicate HangsRight(rows: seq<Node>, rootId: Option<nat>, t: Tree)
    decreases t
  {
    && (forall i :: 0 <= i < |t.children| ==>
          && t.children[i].row in rows && t.children[i].row.parentId == Some(t.row.id)
          && !IsTop(t.children[i].row, rootId) && HangsRight(rows, rootId, t.children[i]))
    && (forall r :: r in rows && r.parentId == Some(t.row.id) && !IsTop(r, rootId) ==> HasRoot(t.children, r))
  }

  ghost predicate HasRoot(trees: seq<Tree>, r: Node) { exists i :: 0 <= i < |trees| && trees[i].row == r }

  lemma {:induction false} TreeHangs(rows: seq<Node>, rootId: Option<nat>, k: nat)
    requires Arrives(rows) && k < |rows|
    ensures HangsRight(rows, rootId, TreeAt(rows, rootId, k))
    decreases |rows| - k
  {
    var t, ks := TreeAt(rows, rootId, k), Kids(rows, rootId, k, |rows|);
    TreeAtIs(rows, rootId, k);
    forall i | 0 <= i < |ks|
      ensures HangsRight(rows, rootId, t.children[i]) && t.children[i].row == rows[ks[i]]
    {
      TreeHangs(rows, rootId, ks[i]);
      TreeAtIs(rows, rootId, ks[i]);
    }
    forall r | r in rows && r.parentId == Some(t.row.id) && !IsTop(r, rootId) ensures HasRoot(t.children, r) {
      KidHangs(rows, rootId, k, r);
    }
  }

  lemma {:induction false} KidHangs(rows: seq<Node>, rootId: Option<nat>, k: nat, r: Node)
    requires Arrives(rows) && k < |rows| && r in rows && r.parentId == Some(rows[k].id) && !IsTop(r, rootId)
    ensures HasRoot(Trees(rows, rootId, Kids(rows, rootId, k, |rows|)), r)
  {
    var ks := Kids(rows, rootId, k, |rows|);
    var c :| 0 <= c < |rows| && rows[c] == r;
    ParentEarlier(rows, rootId, k, c);
    assert c in ks;
    var i :| 0 <= i < |ks| && ks[i] == c;
    TreeAtIs(rows, rootId, c);
    assert Trees(rows, rootId, ks)[i].row == r;
  }

  /**
   * The forest nests as the rows say: its roots are exactly the tops, and below each node hang exactly its children.
   */
  lemma {:induction false} ForestNests(rows: seq<Node>, rootId: Option<nat>)
    requires Arrives(rows)
    ensures forall i :: 0 <= i < |ForestOf(rows, rootId)| ==>
                var t := ForestOf(rows, rootId)[i];
                t.row in rows && IsTop(t.row, rootId) && HangsRight(rows, rootId, t)
    ensures forall r :: r in rows && IsTop(r, rootId) ==> HasRoot(ForestOf(rows, rootId), r)
  {
    var ks, forest := Tops(rows, rootId, |rows|), ForestOf(rows, rootId);
    forall i | 0 <= i < |forest| ensures forest[i].row == rows[ks[i]] && HangsRight(rows, rootId, forest[i]) {
      TreeHangs(rows, rootId, ks[i]);
      TreeAtIs(rows, rootId, ks[i]);
    }
    forall r | r in rows && IsTop(r, rootId) ensures HasRoot(forest, r) {
      var c :| 0 <= c < |rows| && rows[c] == r;
      var i :| 0 <= i < |ks| && ks[i] == c;
      assert forest[i].row == r;
    }
  }
}
