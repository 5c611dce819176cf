/** The materialised path of a category: `/1/5/12/`. */
module CategoryPath {
  import opened Prelude
  import opened Texts

  const ROOT_PATH := "/"

  /** A child's path: its parent's, or the root's slash, with its own id and a slash put behind. */
  function PathOf(parentPath: Option<string>, id: nat): string {
    parentPath.GetOr(ROOT_PATH) + Dec(id) + "/"
  }

  /** How many ids a path holds, counted by its slashes. */
  function Depth(path: string): int { Count('/', path) - 1 }

  method DepthOf(path: string) returns (depth: int)
    ensures depth == Depth(path)
  {
    var slashes := 0;
    for i := 0 to |path|
      invariant slashes == Count('/', path[..i])
    {
      assert path[..i + 1] == path[..i] + [path[i]];
      CountConcat('/', path[..i], [path[i]]);
      if path[i] == '/' { slashes := slashes + 1; }
    }
    assert path[..|path|] == path;
    depth := slashes - 1;
  }

  /** The prefix test that stands in for walking up the tree; `RenderPrefix` says why it may. */
  predicate IsSelfOrDescendant(path: string, ancestorPath: string) { ancestorPath <= path }

  predicate FitsUnder(cap: nat, parentDepth: int, subtreeHeight: int) { parentDepth + subtreeHeight <= cap }

  datatype MoveRefusal = Cycle | TooDeep

  /** `subtreeDepth` is the greatest depth anywhere in the node's subtree, itself included. */
  datatype MoveCandidate = MoveCandidate(path: string, depth: int, subtreeDepth: int)

  /** No path and depth zero when moving to the top level. */
  datatype MoveDestination = MoveDestination(path: Option<string>, depth: int)

  function RefuseMove(cap: nat, node: MoveCandidate, destination: MoveDestination): Option<MoveRefusal> {
    if destination.path.Some? && IsSelfOrDescendant(destination.path.value, node.path) then Some(Cycle)
    else
      var height := node.subtreeDepth - node.depth + 1;
      if FitsUnder(cap, destination.depth, height) then None else Some(TooDeep)
  }

  /** Rewrites one path so that the subtree at `oldPrefix` hangs off `newPrefix`. */
  function RebasePath(path: string, oldPrefix: string, newPrefix: string): string
    requires |oldPrefix| <= |path|
  {
    newPrefix + path[|oldPrefix|..]
  }

  // ------------------------------------------------- paths as lists of ids

  function Segments(ids: seq<nat>): string {
    if ids == [] then "" else Dec(ids[0]) + "/" + Segments(ids[1..])
  }

  /** The path of the node whose ancestors and itself are `ids`, root first. */
  function Render(ids: seq<nat>): string { ROOT_PATH + Segments(ids) }

  lemma {:induction false} SegmentsConcat(a: seq<nat>, b: seq<nat>)
    ensures Segments(a + b) == Segments(a) + Segments(b)
  {
    if a == [] {
      assert a + b == b;
    } else {
      SegmentsConcat(a[1..], b);
      assert (a + b)[1..] == a[1..] + b;
      ConcatAssociative(Dec(a[0]) + "/", Segments(a[1..]), Segments(b));
    }
  }

  lemma {:induction false} RenderChild(ids: seq<nat>, id: nat)
    ensures Render(ids + [id]) == PathOf(Some(Render(ids)), id)
    ensures Render([id]) == PathOf(None, id)
  {
    SegmentsConcat(ids, [id]);
    assert [id][1..] == [];
    assert Segments([id]) == Dec(id) + "/";
    ConcatAssociative(ROOT_PATH, Segments(ids), Dec(id) + "/");
    ConcatAssociative(Render(ids), Dec(id), "/");
    ConcatAssociative(ROOT_PATH, Dec(id), "/");
  }

  lemma {:induction false} DecHasNoSlash(n: nat)
    ensures '/' !in Dec(n)
  {
    var s := Dec(n);
    assert forall i :: 0 <= i < |s| ==> '0' <= s[i];
  }

  lemma {:induction false} SegmentsCount(ids: seq<nat>)
    ensures Count('/', Segments(ids)) == |ids|
  {
    if ids != [] {
      SegmentsCount(ids[1..]);
      DecHasNoSlash(ids[0]);
      CountZero('/', Dec(ids[0]));
      CountConcat('/', Dec(ids[0]), "/" + Segments(ids[1..]));
      CountConcat('/', "/", Segments(ids[1..]));
      ConcatAssociative(Dec(ids[0]), "/", Segments(ids[1..]));
    }
  }

  lemma {:induction false} RenderDepth(ids: seq<nat>)
    ensures Depth(Render(ids)) == |ids|
  {
    SegmentsCount(ids);
    CountConcat('/', "/", Segments(ids));
  }

  lemma {:induction false} SegmentPrefix(h: string, x: string, k: string, y: string)
    requires '/' !in h && '/' !in k
    ensures h + "/" + x <= k + "/" + y <==> h == k && x <= y
  {
    var s, t := h + "/" + x, k + "/" + y;
    if s <= t {
      var more := t[|s|..];
      assert h + ['/'] + (x + more) == k + ['/'] + y by {
        assert t == s + more;
      }
      SplitAtFirst(h, x + more, k, y, '/');
    }
    if h == k && x <= y {
      assert t == s + y[|x|..];
    }
  }

  lemma {:induction false} SegmentsPrefix(a: seq<nat>, b: seq<nat>)
    ensures Segments(a) <= Segments(b) <==> a <= b
  {
    if a != [] && b != [] {
      SegmentsPrefix(a[1..], b[1..]);
      DecHasNoSlash(a[0]);
      DecHasNoSlash(b[0]);
      SegmentPrefix(Dec(a[0]), Segments(a[1..]), Dec(b[0]), Segments(b[1..]));
      if Dec(a[0]) == Dec(b[0]) { DecInjective(a[0], b[0]); }
      assert a == [a[0]] + a[1..] && b == [b[0]] + b[1..];
    } else if a != [] {
      assert |Segments(a)| > 0;
    }
  }

  lemma {:induction false} PrefixUnderRoot(s: string, t: string)
    ensures ROOT_PATH + s <= ROOT_PATH + t <==> s <= t
  {
    var u, v := ROOT_PATH + s, ROOT_PATH + t;
    assert u[1..] == s && v[1..] == t;
    if s <= t { assert v == u + t[|s|..]; }
    if u <= v { assert v[1..][..|s|] == v[..|u|][1..]; }
  }

  /** A string prefix between paths is ancestry: `/1/5/` is no prefix of `/1/51/`. */
  lemma {:induction false} RenderPrefix(a: seq<nat>, b: seq<nat>)
    ensures IsSelfOrDescendant(Render(b), Render(a)) <==> a <= b
  {
    SegmentsPrefix(a, b);
    PrefixUnderRoot(Segments(a), Segments(b));
  }

  lemma {:induction false} RenderInjective(a: seq<nat>, b: seq<nat>)
    requires Render(a) == Render(b)
    ensures a == b
  {
    RenderPrefix(a, b);
    RenderPrefix(b, a);
  }

  lemma {:induction false} RenderConcat(a: seq<nat>, b: seq<nat>)
    ensures Render(a + b) == Render(a) + Segments(b)
  {
    SegmentsConcat(a, b);
    ConcatAssociative(ROOT_PATH, Segments(a), Segments(b));
  }

  /** Rebasing the path of a node below `src` gives the path the node has below `dst`. */
  lemma {:induction false} RebaseRendered(path: string, src: seq<nat>, dst: seq<nat>, below: seq<nat>)
    requires path == Render(src + below)
    ensures |Render(src)| <= |path|
    ensures RebasePath(path, Render(src), Render(dst)) == Render(dst + below)
  {
    RenderConcat(src, below);
    RenderConcat(dst, below);
    var p, tail := Render(src), Segments(below);
    assert path == p + tail;
    assert path[|p|..] == tail;
  }

  /** A path holds digits and slashes only, so it carries no `LIKE` metacharacter. */
  lemma {:induction false} SegmentsPlain(ids: seq<nat>)
    ensures forall i :: 0 <= i < |Segments(ids)| ==> '0' <= Segments(ids)[i] <= '9' || Segments(ids)[i] == '/'
  {
    if ids != [] {
      SegmentsPlain(ids[1..]);
      assert IsDigits(Dec(ids[0]));
    }
  }
}
