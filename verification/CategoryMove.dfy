/** Moving a subtree: the refusal, the one bulk rewrite, and what both mean for the adjacency list. */
module CategoryMove {
  import opened Prelude
  import opened SearchPattern
  import opened CategoryPath
  import opened CategoryTree

  predicate Live(rows: Rows, id: nat) { id in rows && !rows[id].deleted }

  /** `max("depth")` over the rows whose path starts with `path`, soft-deleted ones included. */
  ghost function SubtreeDepth(rows: Rows, path: string): int {
    var depths := set id | id in rows && Like(rows[id].path, path + "%") :: rows[id].depth;
    if depths == {} then 0 else MaxOf(depths)
  }

  /** `substring(text from n + 1)`. */
  function Substring(text: string, n: nat): string { if n <= |text| then text[n..] else "" }

  ghost function Refusal(cap: nat, rows: Rows, id: nat, parentId: Option<nat>): Option<MoveRefusal>
    requires id in rows && (parentId.Some? ==> parentId.value in rows)
  {
    var node := rows[id];
    RefuseMove(cap,
               MoveCandidate(node.path, node.depth, SubtreeDepth(rows, node.path)),
               match parentId
               case None => MoveDestination(None, 0)
               case Some(p) => MoveDestination(Some(rows[p].path), rows[p].depth))
  }

  /** The row the bulk `UPDATE` leaves behind for one row of the subtree. */
  function Rewritten(row: Category, node: Category, parent: Option<Category>, sortOrder: Option<int>): Category {
    var parentPath := PathOfParent(parent);
    var newPrefix := PathOf(parentPath, node.id);
    row.(
    path := newPrefix + Substring(row.path, |node.path|),
    parentPath := if row.id == node.id then parentPath
                  else match row.parentPath
                       case None => None
                       case Some(text) => Some(newPrefix + Substring(text, |node.path|)),
    parentId := if row.id == node.id then (match parent case None => None case Some(p) => Some(p.id)) else row.parentId,
    depth := row.depth + ((match parent case None => 0 case Some(p) => p.depth) + 1 - node.depth),
    sortOrder := if row.id == node.id then sortOrder.GetOr(row.sortOrder) else row.sortOrder)
  }

  function PathOfParent(parent: Option<Category>): Option<string> {
    match parent case None => None case Some(p) => Some(p.path)
  }

  function ParentRow(rows: Rows, parentId: Option<nat>): Option<Category>
    requires parentId.Some? ==> parentId.value in rows
  {
    match parentId case None => None case Some(p) => Some(rows[p])
  }

  /** One statement over every row whose path starts with the moved node's path. */
  function MoveRows(rows: Rows, id: nat, parentId: Option<nat>, sortOrder: Option<int>): Rows
    requires id in rows && (parentId.Some? ==> parentId.value in rows)
  {
    var node := rows[id];
    var parent := ParentRow(rows, parentId);
    map k | k in rows :: if Like(rows[k].path, node.path + "%") then Rewritten(rows[k], node, parent, sortOrder)
        else rows[k]
  }

  /** The move on parent edges alone: one edge changes and nothing is cached. */
  function Reparent(rows: Rows, id: nat, parentId: Option<nat>): Rows
    requires id in rows
  {
    rows[id := rows[id].(parentId := parentId)]
  }

  // ------------------------------------------------------ lineages after a move

  ghost function NewPrefix(cap: nat, rows: Rows, id: nat, parentId: Option<nat>): seq<nat>
    requires WellFormed(cap, rows) && (parentId.Some? ==> parentId.value in rows)
  {
    (match parentId case None => [] case Some(p) => Lineage(cap, rows, p)) + [id]
  }

  ghost function MovedLineage(cap: nat, rows: Rows, id: nat, parentId: Option<nat>, k: nat): (ids: seq<nat>)
    requires WellFormed(cap, rows) && id in rows && k in rows && (parentId.Some? ==> parentId.value in rows)
  {
    var own := Lineage(cap, rows, k);
    if AtOrBelow(cap, rows, k, id) then
      LineagePrefix(cap, rows, k, id);
      NewPrefix(cap, rows, id, parentId) + own[|Lineage(cap, rows, id)|..]
    else own
  }

  ghost predicate IntoItself(cap: nat, rows: Rows, id: nat, parentId: Option<nat>)
    requires WellFormed(cap, rows) && (parentId.Some? ==> parentId.value in rows)
  {
    parentId.Some? && AtOrBelow(cap, rows, parentId.value, id)
  }

  lemma {:induction false} LineageAvoiding(rows: Rows, id: nat, parentId: Option<nat>, ids: seq<nat>)
    requires IsLineage(rows, ids) && id in rows && id !in ids
    ensures IsLineage(Reparent(rows, id, parentId), ids)
  {
  }

  lemma {:induction false} HangBelow(rows: Rows, id: nat, parentId: Option<nat>, up: seq<nat>, own: seq<nat>, n: nat)
    requires IsLineage(rows, own) && Distinct(own) && 0 < n <= |own| && own[n - 1] == id
    requires match parentId case None => up == [] case Some(p) => LineageOf(rows, p, up) && id !in up
    ensures LineageOf(Reparent(rows, id, parentId), own[|own| - 1], up + [id] + own[n..])
  {
    var after := Reparent(rows, id, parentId);
    var ids := up + [id] + own[n..];
    if parentId.Some? { LineageAvoiding(rows, id, parentId, up); }
    forall i | 0 <= i < |ids|
      ensures ids[i] in after
      ensures i > 0 ==> after[ids[i]].parentId == Some(ids[i - 1])
    {
      if i < |up| {
        assert ids[i] == up[i];
      } else if i > |up| {
        var j := n + (i - |up| - 1);
        assert ids[i] == own[j] && ids[i - 1] == own[j - 1] && own[j] != own[n - 1];
        assert rows[own[j]].parentId == Some(own[j - 1]);
      }
    }
    assert ids[0] == if |up| > 0 then up[0] else id;
  }

  lemma {:induction false} MovedLineageHolds(cap: nat, rows: Rows, id: nat, parentId: Option<nat>, k: nat)
    requires WellFormed(cap, rows) && id in rows && k in rows && (parentId.Some? ==> parentId.value in rows)
    requires !IntoItself(cap, rows, id, parentId)
    ensures LineageOf(Reparent(rows, id, parentId), k, MovedLineage(cap, rows, id, parentId, k))
  {
    var own := Lineage(cap, rows, k);
    if AtOrBelow(cap, rows, k, id) {
      LineagePrefix(cap, rows, k, id);
      var n := |Lineage(cap, rows, id)|;
      LineageDistinct(rows, own);
      assert own[n - 1] == id;
      HangBelow(rows, id, parentId, match parentId case None => [] case Some(p) => Lineage(cap, rows, p), own, n);
    } else {
      LineageAvoiding(rows, id, parentId, own);
    }
  }

  // --------------------------------------------------------- cycle detection

  /** Parent edges that lead from `id` back to `id` give `id` no lineage at all. */
  lemma {:induction false} CycleHasNoLineage(cap: nat, rows: Rows, id: nat, p: nat, ids: seq<nat>)
    requires WellFormed(cap, rows) && id in rows && p in rows && AtOrBelow(cap, rows, p, id)
    ensures !LineageOf(Reparent(rows, id, Some(p)), id, ids)
    decreases |ids|
  {
    var after := Reparent(rows, id, Some(p));
    if LineageOf(after, id, ids) {
      RootLineage(after, id, ids);
      var up := ids[..|ids| - 1];
      assert LineageOf(after, p, up);
      var chain := Lineage(cap, rows, p);
      var i :| 0 <= i < |chain| && chain[i] == id;
      LineageDistinct(rows, chain);
      var shorter := Climb(rows, id, p, chain, i, up);
      CycleHasNoLineage(cap, rows, id, p, shorter);
    }
  }

  /** Walking up from the end of `chain` meets `id` before either chain runs out. */
  lemma {:induction false} Climb(rows: Rows, id: nat, p: nat, chain: seq<nat>, i: nat, up: seq<nat>)
    returns (top: seq<nat>)
    requires IsLineage(rows, chain) && Distinct(chain) && i < |chain| && chain[i] == id
    requires IsLineage(Reparent(rows, id, Some(p)), up) && up[|up| - 1] == chain[|chain| - 1]
    ensures LineageOf(Reparent(rows, id, Some(p)), id, top) && |top| <= |up|
    decreases |chain|
  {
    var after := Reparent(rows, id, Some(p));
    var n, m := |chain| - 1, |up| - 1;
    if i == n {
      top := up;
    } else {
      assert chain[n] != id;
      assert after[up[m]].parentId == rows[chain[n]].parentId == Some(chain[n - 1]);
      RootLineage(after, up[m], up);
      assert Distinct(chain[..n]);
      top := Climb(rows, id, p, chain[..n], i, up[..m]);
    }
  }

  // ------------------------------------------------------------- the decision

  lemma {:induction false} SubtreeDepthIs(cap: nat, rows: Rows, id: nat)
    requires WellFormed(cap, rows) && id in rows
    ensures forall k :: k in rows && AtOrBelow(cap, rows, k, id) ==>
                |Lineage(cap, rows, k)| <= SubtreeDepth(rows, rows[id].path)
    ensures exists k :: k in rows && AtOrBelow(cap, rows, k, id)
                        && |Lineage(cap, rows, k)| == SubtreeDepth(rows, rows[id].path)
  {
    var depths := set k | k in rows && Like(rows[k].path, rows[id].path + "%") :: rows[k].depth;
    SubtreeQuery(cap, rows, id, id);
    assert rows[id].depth in depths;
    forall k | k in rows && AtOrBelow(cap, rows, k, id)
      ensures |Lineage(cap, rows, k)| <= SubtreeDepth(rows, rows[id].path)
    {
      SubtreeQuery(cap, rows, k, id);
      assert rows[k].depth in depths;
    }
    var k :| k in rows && Like(rows[k].path, rows[id].path + "%") && rows[k].depth == MaxOf(depths);
    SubtreeQuery(cap, rows, k, id);
  }

  lemma {:induction false} MovedLength(cap: nat, rows: Rows, id: nat, parentId: Option<nat>, k: nat)
    requires WellFormed(cap, rows) && id in rows && k in rows && (parentId.Some? ==> parentId.value in rows)
    ensures |MovedLineage(cap, rows, id, parentId, k)|
         == if AtOrBelow(cap, rows, k, id)
            then (match parentId case None => 0 case Some(p) => rows[p].depth) + 1
                + |Lineage(cap, rows, k)| - rows[id].depth
            else |Lineage(cap, rows, k)|
  {
    if AtOrBelow(cap, rows, k, id) { LineagePrefix(cap, rows, k, id); }
  }

  lemma {:induction false} AcceptedFits(cap: nat, rows: Rows, id: nat, parentId: Option<nat>)
    requires WellFormed(cap, rows) && id in rows && (parentId.Some? ==> parentId.value in rows)
    requires !IntoItself(cap, rows, id, parentId) && Refusal(cap, rows, id, parentId).None?
    ensures AcyclicWithin(cap, Reparent(rows, id, parentId))
  {
    var after := Reparent(rows, id, parentId);
    SubtreeDepthIs(cap, rows, id);
    forall k | k in after ensures Rooted(cap, after, k) {
      MovedLineageHolds(cap, rows, id, parentId, k);
      MovedLength(cap, rows, id, parentId, k);
    }
  }

  lemma {:induction false} FittingRow(cap: nat, rows: Rows, id: nat, parentId: Option<nat>, k: nat)
    requires WellFormed(cap, rows) && id in rows && k in rows && (parentId.Some? ==> parentId.value in rows)
    requires !IntoItself(cap, rows, id, parentId) && AcyclicWithin(cap, Reparent(rows, id, parentId))
    ensures |MovedLineage(cap, rows, id, parentId, k)| <= cap
  {
    var after := Reparent(rows, id, parentId);
    assert Rooted(cap, after, k);
    var ids :| LineageOf(after, k, ids) && |ids| <= cap;
    MovedLineageHolds(cap, rows, id, parentId, k);
    LineageUnique(after, k, ids, MovedLineage(cap, rows, id, parentId, k));
  }

  lemma {:induction false} FittingAccepted(cap: nat, rows: Rows, id: nat, parentId: Option<nat>)
    requires WellFormed(cap, rows) && id in rows && (parentId.Some? ==> parentId.value in rows)
    requires !IntoItself(cap, rows, id, parentId) && AcyclicWithin(cap, Reparent(rows, id, parentId))
    ensures SubtreeDepth(rows, rows[id].path) - rows[id].depth + 1
                + (match parentId case None => 0 case Some(p) => rows[p].depth) <= cap
  {
    SubtreeDepthIs(cap, rows, id);
    var k :| k in rows && AtOrBelow(cap, rows, k, id) && |Lineage(cap, rows, k)| == SubtreeDepth(rows, rows[id].path);
    FittingRow(cap, rows, id, parentId, k);
    MovedLength(cap, rows, id, parentId, k);
  }

  lemma {:induction false} CyclicUnfit(cap: nat, rows: Rows, id: nat, p: nat)
    requires WellFormed(cap, rows) && id in rows && p in rows && AtOrBelow(cap, rows, p, id)
    ensures !AcyclicWithin(cap, Reparent(rows, id, Some(p)))
  {
    var after := Reparent(rows, id, Some(p));
    forall ids ensures !LineageOf(after, id, ids) { CycleHasNoLineage(cap, rows, id, p, ids); }
    assert !Rooted(cap, after, id);
  }

  /**
   * The refusal is sound and complete: `cycle` exactly when the destination is the node or one of
   * its descendants, and no refusal exactly when the re-parented edges are acyclic and within the cap.
   */
  lemma {:induction false} MoveDecision(cap: nat, rows: Rows, id: nat, parentId: Option<nat>)
    requires WellFormed(cap, rows) && id in rows && (parentId.Some? ==> parentId.value in rows)
    ensures Refusal(cap, rows, id, parentId) == Some(Cycle) <==> IntoItself(cap, rows, id, parentId)
    ensures Refusal(cap, rows, id, parentId) == None <==> AcyclicWithin(cap, Reparent(rows, id, parentId))
  {
    if parentId.Some? { SubtreeQuery(cap, rows, parentId.value, id); }
    if IntoItself(cap, rows, id, parentId) {
      CyclicUnfit(cap, rows, id, parentId.value);
    } else {
      if Refusal(cap, rows, id, parentId).None? { AcceptedFits(cap, rows, id, parentId); }
      if AcyclicWithin(cap, Reparent(rows, id, parentId)) { FittingAccepted(cap, rows, id, parentId); }
    }
  }

  // -------------------------------------------------------------- the rewrite

  lemma {:induction false} NewPrefixPath(cap: nat, rows: Rows, id: nat, parentId: Option<nat>)
    requires WellFormed(cap, rows) && id in rows && (parentId.Some? ==> parentId.value in rows)
    ensures PathOf(PathOfParent(ParentRow(rows, parentId)), id)
         == Render(NewPrefix(cap, rows, id, parentId))
  {
    RenderChild(match parentId case None => [] case Some(p) => Lineage(cap, rows, p), id);
    assert [] + [id] == [id];
  }

  /** The strings the statement builds for a row at `src + below`, once the node at `src` hangs at `dst`. */
  lemma {:induction false} RewrittenStrings(row: Category, node: Category, parent: Option<Category>,
                                            sortOrder: Option<int>,
                         src: seq<nat>, dst: seq<nat>, below: seq<nat>)
    requires node.path == Render(src) && row.path == Render(src + below)
    requires PathOf(PathOfParent(parent), node.id) == Render(dst)
    requires row.id != node.id ==> below != [] && row.parentPath == Some(Render(src + below[..|below| - 1]))
    ensures Rewritten(row, node, parent, sortOrder).path == Render(dst + below)
    ensures row.id != node.id ==>
                Rewritten(row, node, parent, sortOrder).parentPath == Some(Render(dst + below[..|below| - 1]))
  {
    RebaseRendered(row.path, src, dst, below);
    if row.id != node.id { RebaseRendered(row.parentPath.value, src, dst, below[..|below| - 1]); }
  }

  lemma {:induction false} FrontOfJoin(a: seq<nat>, b: seq<nat>)
    requires b != []
    ensures (a + b)[..|a + b| - 1] == a + b[..|b| - 1]
  {
  }

  lemma {:induction false} SplitBelow(src: seq<nat>, own: seq<nat>)
    requires src != [] && src <= own && own[|own| - 1] != src[|src| - 1]
    ensures own[|src|..] != [] && own == src + own[|src|..]
    ensures own[..|own| - 1] == src + own[|src|..][..|own| - |src| - 1]
  {
  }

  lemma {:induction false} MovedRow(cap: nat, rows: Rows, id: nat, parentId: Option<nat>, sortOrder: Option<int>,
                                    k: nat)
    requires WellFormed(cap, rows) && id in rows && k in rows && (parentId.Some? ==> parentId.value in rows)
    requires AtOrBelow(cap, rows, k, id)
    ensures MoveRows(rows, id, parentId, sortOrder)[k]
                == Rewritten(rows[k], rows[id], ParentRow(rows, parentId), sortOrder)
  {
    SubtreeQuery(cap, rows, k, id);
  }

  lemma {:induction false} DescendantChain(cap: nat, rows: Rows, id: nat, k: nat)
    requires WellFormed(cap, rows) && id in rows && k in rows && AtOrBelow(cap, rows, k, id) && k != id
    ensures Lineage(cap, rows, id) <= Lineage(cap, rows, k)
    ensures rows[k].parentPath == Some(Render(Lineage(cap, rows, k)[..|Lineage(cap, rows, k)| - 1]))
  {
    LineagePrefix(cap, rows, k, id);
    SplitBelow(Lineage(cap, rows, id), Lineage(cap, rows, k));
  }

  /** The path and the parent path the chain `ids` determines. */
  ghost predicate SpellsOut(row: Category, ids: seq<nat>) {
    && ids != [] && row.path == Render(ids)
    && row.parentPath == (if |ids| == 1 then None else Some(Render(ids[..|ids| - 1])))
  }

  lemma {:induction false} RewrittenDescendant(cap: nat, rows: Rows, id: nat, parentId: Option<nat>,
                                               sortOrder: Option<int>, k: nat)
    requires WellFormed(cap, rows) && id in rows && k in rows && (parentId.Some? ==> parentId.value in rows)
    requires AtOrBelow(cap, rows, k, id) && k != id
    ensures SpellsOut(Rewritten(rows[k], rows[id], ParentRow(rows, parentId), sortOrder),
                      MovedLineage(cap, rows, id, parentId, k))
  {
    DescendantChain(cap, rows, id, k);
    NewPrefixPath(cap, rows, id, parentId);
    var src, own := Lineage(cap, rows, id), Lineage(cap, rows, k);
    SplitBelow(src, own);
    DescendantStrings(rows[k], rows[id], ParentRow(rows, parentId), sortOrder, src, NewPrefix(cap, rows, id, parentId),
                      own[|src|..]);
  }

  lemma {:induction false} DescendantStrings(row: Category, node: Category, parent: Option<Category>,
                                             sortOrder: Option<int>,
                                             src: seq<nat>, dst: seq<nat>, below: seq<nat>)
    requires dst != [] && below != [] && row.id != node.id
    requires node.path == Render(src) && row.path == Render(src + below)
    requires row.parentPath == Some(Render(src + below[..|below| - 1]))
    requires PathOf(PathOfParent(parent), node.id) == Render(dst)
    ensures SpellsOut(Rewritten(row, node, parent, sortOrder), dst + below)
  {
    RewrittenStrings(row, node, parent, sortOrder, src, dst, below);
    FrontOfJoin(dst, below);
  }

  lemma {:induction false} RewrittenNode(cap: nat, rows: Rows, id: nat, parentId: Option<nat>, sortOrder: Option<int>)
    requires WellFormed(cap, rows) && id in rows && (parentId.Some? ==> parentId.value in rows)
    ensures SpellsOut(Rewritten(rows[id], rows[id], ParentRow(rows, parentId), sortOrder),
                      MovedLineage(cap, rows, id, parentId, id))
  {
    NewPrefixPath(cap, rows, id, parentId);
    var src, dst := Lineage(cap, rows, id), NewPrefix(cap, rows, id, parentId);
    assert src == src + [] && src[|src|..] == [] && dst + [] == dst;
    RewrittenStrings(rows[id], rows[id], ParentRow(rows, parentId), sortOrder, src, dst, []);
    assert parentId.Some? ==> dst[..|dst| - 1] == Lineage(cap, rows, parentId.value);
  }

  lemma {:induction false} RewrittenRow(row: Category, node: Category, parent: Option<Category>, sortOrder: Option<int>)
    ensures var r := Rewritten(row, node, parent, sortOrder);
            r.id == row.id && r.depth == row.depth - node.depth + (match parent case None => 0 case Some(p) => p.depth)
                + 1
  {
  }

  /** What the statement writes into one subtree row is what the new lineage determines. */
  lemma {:induction false} RewrittenCaches(cap: nat, rows: Rows, id: nat, parentId: Option<nat>, sortOrder: Option<int>,
                                           k: nat)
    requires WellFormed(cap, rows) && id in rows && k in rows && (parentId.Some? ==> parentId.value in rows)
    requires AtOrBelow(cap, rows, k, id)
    ensures SpellsOut(MoveRows(rows, id, parentId, sortOrder)[k], MovedLineage(cap, rows, id, parentId, k))
    ensures MoveRows(rows, id, parentId, sortOrder)[k].id == k
    ensures MoveRows(rows, id, parentId, sortOrder)[k].depth == |MovedLineage(cap, rows, id, parentId, k)|
  {
    MovedLength(cap, rows, id, parentId, k);
    MovedRow(cap, rows, id, parentId, sortOrder, k);
    RewrittenRow(rows[k], rows[id], ParentRow(rows, parentId), sortOrder);
    assert Cached(rows, k, Lineage(cap, rows, k));
    if k == id {
      RewrittenNode(cap, rows, id, parentId, sortOrder);
    } else {
      RewrittenDescendant(cap, rows, id, parentId, sortOrder, k);
    }
  }

  lemma {:induction false} UntouchedCaches(cap: nat, rows: Rows, id: nat, parentId: Option<nat>, sortOrder: Option<int>,
                                           k: nat)
    requires WellFormed(cap, rows) && id in rows && k in rows && (parentId.Some? ==> parentId.value in rows)
    requires !AtOrBelow(cap, rows, k, id)
    ensures MoveRows(rows, id, parentId, sortOrder)[k] == rows[k] && k != id
  {
    SubtreeQuery(cap, rows, k, id);
  }

  /** The columns a move leaves alone, the edge it changes and the position it sets. */
  ghost predicate OnlyMoved(before: Category, after: Category, id: nat, parentId: Option<nat>, sortOrder: Option<int>) {
    && after.parentId == (if before.id == id then parentId else before.parentId)
    && after.sortOrder == (if before.id == id then sortOrder.GetOr(before.sortOrder) else before.sortOrder)
    && after.id == before.id && after.name == before.name && after.slug == before.slug
    && after.isActive == before.isActive
    && after.version == before.version && after.deleted == before.deleted
  }

  lemma {:induction false} RewrittenColumns(row: Category, node: Category, parent: Option<Category>,
                                            sortOrder: Option<int>)
    ensures OnlyMoved(row, Rewritten(row, node, parent, sortOrder), node.id,
                      match parent case None => None case Some(p) => Some(p.id), sortOrder)
  {
  }

  lemma {:induction false} MovedColumns(cap: nat, rows: Rows, id: nat, parentId: Option<nat>, sortOrder: Option<int>,
                                        k: nat)
    requires WellFormed(cap, rows) && id in rows && k in rows && (parentId.Some? ==> parentId.value in rows)
    ensures OnlyMoved(rows[k], MoveRows(rows, id, parentId, sortOrder)[k], id, parentId, sortOrder)
  {
    assert RowValid(cap, rows, k) && RowValid(cap, rows, id);
    if parentId.Some? { assert RowValid(cap, rows, parentId.value); }
    SubtreeQuery(cap, rows, k, id);
    RewrittenColumns(rows[k], rows[id], ParentRow(rows, parentId), sortOrder);
  }

  /** The statement sets the same parent edges as re-parenting the one node. */
  lemma {:induction false} ChainKept(cap: nat, rows: Rows, id: nat, parentId: Option<nat>, sortOrder: Option<int>,
                                     k: nat, ids: seq<nat>)
    requires WellFormed(cap, rows) && id in rows && k in rows && (parentId.Some? ==> parentId.value in rows)
    requires LineageOf(Reparent(rows, id, parentId), k, ids)
    ensures LineageOf(MoveRows(rows, id, parentId, sortOrder), k, ids)
  {
    var after, edges := MoveRows(rows, id, parentId, sortOrder), Reparent(rows, id, parentId);
    forall i | 0 <= i < |ids| ensures ids[i] in after && after[ids[i]].parentId == edges[ids[i]].parentId {
      assert ids[i] in edges;
      assert RowValid(cap, rows, ids[i]);
      MovedColumns(cap, rows, id, parentId, sortOrder, ids[i]);
    }
  }

  lemma {:induction false} MovedRowCached(cap: nat, rows: Rows, id: nat, parentId: Option<nat>, sortOrder: Option<int>,
                                          k: nat, ids: seq<nat>)
    requires WellFormed(cap, rows) && id in rows && k in rows && (parentId.Some? ==> parentId.value in rows)
    requires !IntoItself(cap, rows, id, parentId)
    requires LineageOf(Reparent(rows, id, parentId), k, ids)
    ensures Cached(MoveRows(rows, id, parentId, sortOrder), k, ids)
  {
    MovedLineageHolds(cap, rows, id, parentId, k);
    LineageUnique(Reparent(rows, id, parentId), k, ids, MovedLineage(cap, rows, id, parentId, k));
    ChainKept(cap, rows, id, parentId, sortOrder, k, ids);
    if AtOrBelow(cap, rows, k, id) {
      RewrittenCaches(cap, rows, id, parentId, sortOrder, k);
    } else {
      UntouchedCaches(cap, rows, id, parentId, sortOrder, k);
    }
  }

  /** Every chain the parent edges give a row is the one its cached columns spell out. */
  ghost predicate CachesEdges(edges: Rows, rows: Rows) {
    forall k, ids {:trigger LineageOf(edges, k, ids)} :: k in rows && LineageOf(edges, k, ids) ==> Cached(rows, k, ids)
  }

  ghost predicate OnlyPositionsMoved(rows: Rows, after: Rows, id: nat, parentId: Option<nat>, sortOrder: Option<int>) {
    && after.Keys == rows.Keys
    && forall k :: k in rows ==> OnlyMoved(rows[k], after[k], id, parentId, sortOrder)
  }

  lemma {:induction false} MovedCaches(cap: nat, rows: Rows, id: nat, parentId: Option<nat>, sortOrder: Option<int>)
    requires WellFormed(cap, rows) && id in rows && (parentId.Some? ==> parentId.value in rows)
    requires !IntoItself(cap, rows, id, parentId)
    ensures CachesEdges(Reparent(rows, id, parentId), MoveRows(rows, id, parentId, sortOrder))
  {
    var after, edges := MoveRows(rows, id, parentId, sortOrder), Reparent(rows, id, parentId);
    forall k, ids | k in after && LineageOf(edges, k, ids) ensures Cached(after, k, ids) {
      MovedRowCached(cap, rows, id, parentId, sortOrder, k, ids);
    }
  }

  lemma {:induction false} MovedForest(cap: nat, rows: Rows, id: nat, parentId: Option<nat>, sortOrder: Option<int>)
    requires WellFormed(cap, rows) && id in rows && (parentId.Some? ==> Live(rows, parentId.value))
    requires AcyclicWithin(cap, Reparent(rows, id, parentId))
    requires CachesEdges(Reparent(rows, id, parentId), MoveRows(rows, id, parentId, sortOrder))
    ensures Forest(cap, MoveRows(rows, id, parentId, sortOrder))
  {
    var after, edges := MoveRows(rows, id, parentId, sortOrder), Reparent(rows, id, parentId);
    forall k | k in after ensures CachedWithin(cap, after, k) {
      assert Rooted(cap, edges, k);
      var ids :| LineageOf(edges, k, ids) && |ids| <= cap;
    }
    MovedStaysLive(cap, rows, id, parentId, sortOrder);
  }

  /**
   * An accepted move: the single bulk rewrite leaves a well-formed forest, whose parent edges are the
   * old ones with one edge replaced, and whose cached path, parent path and depth are the ones those
   * edges determine. Nothing but the position columns changes.
   */
  lemma {:induction false} MoveRecomputes(cap: nat, rows: Rows, id: nat, parentId: Option<nat>, sortOrder: Option<int>)
    requires WellFormed(cap, rows) && Live(rows, id) && (parentId.Some? ==> Live(rows, parentId.value))
    requires Refusal(cap, rows, id, parentId) == None
    ensures WellFormed(cap, MoveRows(rows, id, parentId, sortOrder))
    ensures CachesEdges(Reparent(rows, id, parentId), MoveRows(rows, id, parentId, sortOrder))
    ensures OnlyPositionsMoved(rows, MoveRows(rows, id, parentId, sortOrder), id, parentId, sortOrder)
  {
    MoveDecision(cap, rows, id, parentId);
    forall k | k in rows
      ensures OnlyMoved(rows[k], MoveRows(rows, id, parentId, sortOrder)[k], id, parentId, sortOrder)
    {
      MovedColumns(cap, rows, id, parentId, sortOrder, k);
    }
    MovedCaches(cap, rows, id, parentId, sortOrder);
    MovedForest(cap, rows, id, parentId, sortOrder);
    ForestIsWellFormed(cap, MoveRows(rows, id, parentId, sortOrder));
  }

  lemma {:induction false} MovedStaysLive(cap: nat, rows: Rows, id: nat, parentId: Option<nat>, sortOrder: Option<int>)
    requires WellFormed(cap, rows) && id in rows && (parentId.Some? ==> Live(rows, parentId.value))
    ensures LiveUnderLive(MoveRows(rows, id, parentId, sortOrder))
  {
    var after := MoveRows(rows, id, parentId, sortOrder);
    forall k | k in after && !after[k].deleted && after[k].parentId.Some? && after[k].parentId.value in after
      ensures !after[after[k].parentId.value].deleted
    {
      assert RowValid(cap, rows, k);
      MovedColumns(cap, rows, id, parentId, sortOrder, k);
      MovedColumns(cap, rows, id, parentId, sortOrder, after[k].parentId.value);
    }
  }
}
