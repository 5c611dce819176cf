/**
 * The category table: an adjacency list that caches every node's path, parent path and depth,
 * and the structural writes over it.
 */
module CategoryTree {
  import opened Prelude
  import opened SearchPattern
  import opened CategoryPath

  datatype Category = Category(
    id: nat,
    parentId: Option<nat>,
    parentPath: Option<string>,
    path: string,
    depth: int,
    name: string,
    slug: string,
    sortOrder: int,
    isActive: bool,
    version: nat,
    deleted: bool)

  type Rows = map<nat, Category>

  // ------------------------------------------------- the adjacency list alone

  /** `ids` runs from a root down to its last element, parent by parent. */
  ghost predicate IsLineage(rows: Rows, ids: seq<nat>) {
    && ids != []
    && (forall i :: 0 <= i < |ids| ==> ids[i] in rows)
    && rows[ids[0]].parentId == None
    && (forall i :: 0 < i < |ids| ==> rows[ids[i]].parentId == Some(ids[i - 1]))
  }

  ghost predicate LineageOf(rows: Rows, id: nat, ids: seq<nat>) { IsLineage(rows, ids) && ids[|ids| - 1] == id }

  ghost predicate Rooted(cap: nat, rows: Rows, id: nat) { exists ids :: LineageOf(rows, id, ids) && |ids| <= cap }

  /** Every node has a finite chain of parents ending at a root, of at most `cap` nodes. */
  ghost predicate AcyclicWithin(cap: nat, rows: Rows) {
    forall id {:trigger Rooted(cap, rows, id)} :: id in rows ==> Rooted(cap, rows, id)
  }

  lemma {:induction false} RootLineage(rows: Rows, id: nat, ids: seq<nat>)
    requires LineageOf(rows, id, ids)
    ensures |ids| == 1 <==> rows[id].parentId.None?
    ensures |ids| > 1 ==> rows[id].parentId == Some(ids[|ids| - 2]) && LineageOf(rows, ids[|ids| - 2], ids[..|ids| - 1])
  {
    var n := |ids| - 1;
    if n > 0 { assert rows[ids[n]].parentId == Some(ids[n - 1]); }
  }

  lemma {:induction false} LineageUnique(rows: Rows, id: nat, a: seq<nat>, b: seq<nat>)
    requires LineageOf(rows, id, a) && LineageOf(rows, id, b)
    ensures a == b
    decreases |a|
  {
    RootLineage(rows, id, a);
    RootLineage(rows, id, b);
    var m, n := |a| - 1, |b| - 1;
    assert a == a[..m] + [id] && b == b[..n] + [id];
    if |a| > 1 {
      assert Some(a[m - 1]) == rows[id].parentId == Some(b[n - 1]);
      LineageUnique(rows, a[m - 1], a[..m], b[..n]);
    }
  }

  lemma {:induction false} LineageAt(rows: Rows, ids: seq<nat>, i: nat)
    requires IsLineage(rows, ids) && i < |ids|
    ensures LineageOf(rows, ids[i], ids[..i + 1])
  {
  }

  lemma {:induction false} LineageDistinct(rows: Rows, ids: seq<nat>)
    requires IsLineage(rows, ids)
    ensures Distinct(ids)
  {
    forall i, j | 0 <= i < j < |ids| ensures ids[i] != ids[j] {
      LineageAt(rows, ids, i);
      LineageAt(rows, ids, j);
      if ids[i] == ids[j] { LineageUnique(rows, ids[i], ids[..i + 1], ids[..j + 1]); }
    }
  }

  // -------------------------------------------------- the cached columns

  /** What the table's constraints say of one row: the columns agree with the parent's. */
  ghost predicate RowValid(cap: nat, rows: Rows, id: nat)
    requires id in rows
  {
    var row := rows[id];
    && row.id == id
    && (row.parentId.None? <==> row.parentPath.None?)
    && (row.parentId.Some? ==>
          && row.parentId.value in rows
          && row.parentPath == Some(rows[row.parentId.value].path)
          && (!row.deleted ==> !rows[row.parentId.value].deleted))
    && row.path == PathOf(row.parentPath, id)
    && row.depth == Depth(row.path)
    && 1 <= row.depth <= cap
  }

  ghost predicate WellFormed(cap: nat, rows: Rows) {
    forall id {:trigger RowValid(cap, rows, id)} :: id in rows ==> RowValid(cap, rows, id)
  }

  /** The same said of the whole chain: the cached columns are those the adjacency list determines. */
  ghost predicate Cached(rows: Rows, id: nat, ids: seq<nat>)
    requires id in rows
  {
    && LineageOf(rows, id, ids)
    && rows[id].id == id
    && rows[id].path == Render(ids)
    && rows[id].depth == |ids|
    && rows[id].parentPath == (if |ids| == 1 then None else Some(Render(ids[..|ids| - 1])))
  }

  ghost predicate LiveUnderLive(rows: Rows) {
    forall id :: id in rows && !rows[id].deleted && rows[id].parentId.Some? && rows[id].parentId.value in rows ==>
                   !rows[rows[id].parentId.value].deleted
  }

  ghost predicate CachedWithin(cap: nat, rows: Rows, id: nat)
    requires id in rows
  {
    exists ids :: Cached(rows, id, ids) && |ids| <= cap
  }

  ghost predicate Forest(cap: nat, rows: Rows) {
    && (forall id {:trigger CachedWithin(cap, rows, id)} :: id in rows ==> CachedWithin(cap, rows, id))
    && LiveUnderLive(rows)
  }

  lemma {:induction false} PathLonger(parentPath: Option<string>, id: nat)
    ensures |PathOf(parentPath, id)| > |parentPath.GetOr(ROOT_PATH)|
  {
  }

  /** The chain of a row, by walking up: it ends because a path is longer than its parent's. */
  ghost function Lineage(cap: nat, rows: Rows, id: nat): (ids: seq<nat>)
    requires WellFormed(cap, rows) && id in rows
    ensures Cached(rows, id, ids) && |ids| <= cap
    decreases |rows[id].path|
  {
    assert RowValid(cap, rows, id);
    PathLonger(rows[id].parentPath, id);
    if rows[id].parentId.None? then
      RenderChild([], id);
      RenderDepth([id]);
      [id]
    else
      var up := Lineage(cap, rows, rows[id].parentId.value);
      RenderChild(up, id);
      RenderDepth(up + [id]);
      assert (up + [id])[..|up|] == up;
      up + [id]
  }

  lemma {:induction false} ParentCached(cap: nat, rows: Rows, id: nat, ids: seq<nat>)
    requires Forest(cap, rows) && id in rows && Cached(rows, id, ids) && |ids| > 1
    ensures rows[id].parentId.Some? && rows[id].parentId.value in rows
    ensures rows[rows[id].parentId.value].path == Render(ids[..|ids| - 1])
  {
    RootLineage(rows, id, ids);
    var p := rows[id].parentId.value;
    assert CachedWithin(cap, rows, p);
    var chain :| Cached(rows, p, chain) && |chain| <= cap;
    LineageUnique(rows, p, chain, ids[..|ids| - 1]);
  }

  lemma {:induction false} CachedPath(row: Category, ids: seq<nat>)
    requires ids != [] && ids[|ids| - 1] == row.id
    requires row.path == Render(ids)
    requires row.parentPath == (if |ids| == 1 then None else Some(Render(ids[..|ids| - 1])))
    ensures row.path == PathOf(row.parentPath, row.id) && Depth(row.path) == |ids|
  {
    var up := ids[..|ids| - 1];
    assert ids == up + [row.id];
    RenderChild(up, row.id);
    RenderDepth(ids);
    if |ids| == 1 { assert up == []; }
  }

  lemma {:induction false} CachedRowValid(cap: nat, rows: Rows, id: nat, ids: seq<nat>)
    requires Forest(cap, rows) && id in rows && Cached(rows, id, ids) && |ids| <= cap
    ensures RowValid(cap, rows, id)
  {
    CachedPath(rows[id], ids);
    RootLineage(rows, id, ids);
    if |ids| > 1 { ParentCached(cap, rows, id, ids); }
  }

  lemma {:induction false} WellFormedIsForest(cap: nat, rows: Rows)
    requires WellFormed(cap, rows)
    ensures Forest(cap, rows)
  {
    forall id | id in rows ensures CachedWithin(cap, rows, id) {
      var ids := Lineage(cap, rows, id);
    }
    forall id | id in rows && !rows[id].deleted && rows[id].parentId.Some?
      ensures rows[id].parentId.value in rows && !rows[rows[id].parentId.value].deleted
    {
      assert RowValid(cap, rows, id);
    }
  }

  lemma {:induction false} ForestIsWellFormed(cap: nat, rows: Rows)
    requires Forest(cap, rows)
    ensures WellFormed(cap, rows)
  {
    forall id | id in rows ensures RowValid(cap, rows, id) {
      assert CachedWithin(cap, rows, id);
      var ids :| Cached(rows, id, ids) && |ids| <= cap;
      CachedRowValid(cap, rows, id, ids);
    }
  }

  /**
   * The constraints on single rows hold everywhere exactly when the table is a forest whose
   * cached path, parent path and depth are the ones its parent edges determine.
   */
  lemma {:induction false} WellFormedIffForest(cap: nat, rows: Rows)
    ensures WellFormed(cap, rows) <==> Forest(cap, rows)
  {
    if WellFormed(cap, rows) { WellFormedIsForest(cap, rows); }
    if Forest(cap, rows) { ForestIsWellFormed(cap, rows); }
  }

  /** No node is its own ancestor: the parent edges of a well-formed table have no cycle. */
  lemma {:induction false} WellFormedAcyclic(cap: nat, rows: Rows)
    requires WellFormed(cap, rows)
    ensures AcyclicWithin(cap, rows)
    ensures forall id :: id in rows ==> Distinct(Lineage(cap, rows, id))
  {
    forall id | id in rows
      ensures Rooted(cap, rows, id)
      ensures Distinct(Lineage(cap, rows, id))
    {
      LineageDistinct(rows, Lineage(cap, rows, id));
    }
  }

  /** `descendant` lies at or below `id`, judged by parent edges only. */
  ghost predicate AtOrBelow(cap: nat, rows: Rows, descendant: nat, id: nat)
    requires WellFormed(cap, rows) && descendant in rows
  {
    id in Lineage(cap, rows, descendant)
  }

  lemma {:induction false} LineagePrefix(cap: nat, rows: Rows, descendant: nat, id: nat)
    requires WellFormed(cap, rows) && descendant in rows && id in rows
    ensures AtOrBelow(cap, rows, descendant, id) <==> Lineage(cap, rows, id) <= Lineage(cap, rows, descendant)
  {
    var a, b := Lineage(cap, rows, id), Lineage(cap, rows, descendant);
    if id in b {
      var i :| 0 <= i < |b| && b[i] == id;
      LineageAt(rows, b, i);
      LineageUnique(rows, id, a, b[..i + 1]);
    }
    if a <= b {
      assert b[|a| - 1] == id;
    }
  }

  /** The subtree query, `path LIKE <path of id> || '%'`, returns exactly the node and its descendants. */
  lemma {:induction false} SubtreeQuery(cap: nat, rows: Rows, descendant: nat, id: nat)
    requires WellFormed(cap, rows) && descendant in rows && id in rows
    ensures Like(rows[descendant].path, rows[id].path + "%") <==> AtOrBelow(cap, rows, descendant, id)
    ensures IsSelfOrDescendant(rows[descendant].path, rows[id].path) <==> AtOrBelow(cap, rows, descendant, id)
  {
    var a, b := Lineage(cap, rows, id), Lineage(cap, rows, descendant);
    SegmentsPlain(a);
    LikePlainPrefix(rows[descendant].path, rows[id].path);
    RenderPrefix(a, b);
    LineagePrefix(cap, rows, descendant, id);
  }
}
