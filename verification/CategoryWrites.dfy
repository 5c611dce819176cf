/** The writes of the category tree, each one atomic step under the tree lock, and whole runs of them. */
module CategoryWrites {
  import opened Prelude
  import opened CategoryPath
  import opened CategoryTree
  import opened CategoryMove

  datatype CategoryError =
    | NotFound | ParentMissing | DepthExceeded | MoveIntoSelf
    | SlugTaken | VersionConflict | ReorderMismatch | HasChildren

  /** The table and the sequence its ids are drawn from. */
  datatype Table = Table(rows: Rows, next: nat)

  datatype Outcome = Outcome(table: Table, error: Option<CategoryError>)

  // -------------------------------------------------------------- invariant

  ghost predicate UniqueSlugs(rows: Rows) {
    forall a, b :: a in rows && b in rows && a != b && !rows[a].deleted && !rows[b].deleted ==>
        rows[a].slug != rows[b].slug
  }

  ghost predicate Inv(cap: nat, t: Table) {
    && cap > 0
    && WellFormed(cap, t.rows)
    && (forall id :: id in t.rows ==> id < t.next)
    && UniqueSlugs(t.rows)
  }

  // ----------------------------------------------------------- specification

  ghost function SiblingOrders(rows: Rows, parentId: Option<nat>): set<int> {
    set id | id in rows && rows[id].parentId == parentId && !rows[id].deleted :: rows[id].sortOrder
  }

  ghost function NextSortOrder(rows: Rows, parentId: Option<nat>): int {
    var orders := SiblingOrders(rows, parentId);
    if orders == {} then 0 else MaxOf(orders) + 1
  }

  predicate SlugFree(rows: Rows, slug: string, except: Option<nat>) {
    forall id :: id in rows && !rows[id].deleted && Some(id) != except ==> rows[id].slug != slug
  }

  function NewRow(rows: Rows, id: nat, parentId: Option<nat>, name: string, slug: string, sortOrder: int): Category
    requires parentId.Some? ==> parentId.value in rows
  {
    var parent := ParentRow(rows, parentId);
    var depth := (match parent case None => 0 case Some(p) => p.depth) + 1;
    Category(id, parentId, PathOfParent(parent), PathOf(PathOfParent(parent), id), depth, name, slug, sortOrder, true,
             0, false)
  }

  ghost function Create(cap: nat, t: Table, parentId: Option<nat>, name: string, slug: string,
                        sortOrder: Option<nat>): Outcome {
    if parentId.Some? && !Live(t.rows, parentId.value) then Outcome(t, Some(ParentMissing))
    else if parentId.Some? && t.rows[parentId.value].depth >= cap then Outcome(t, Some(DepthExceeded))
    // The id is drawn before the slug index answers, and a sequence does not roll back.
    else if !SlugFree(t.rows, slug, None) then Outcome(t.(next := t.next + 1), Some(SlugTaken))
    else
      var order := match sortOrder case Some(n) => n case None => NextSortOrder(t.rows, parentId);
      Outcome(Table(t.rows[t.next := NewRow(t.rows, t.next, parentId, name, slug, order)], t.next + 1), None)
  }

  function Update(t: Table, id: nat, version: nat, name: Option<string>, slug: Option<string>,
                  isActive: Option<bool>): Outcome {
    if !Live(t.rows, id) then Outcome(t, Some(NotFound))
    else if t.rows[id].version != version then Outcome(t, Some(VersionConflict))
    else if slug.Some? && !SlugFree(t.rows, slug.value, Some(id)) then Outcome(t, Some(SlugTaken))
    else
      var row := t.rows[id];
      Outcome(t.(rows := t.rows[id := row.(name := name.GetOr(row.name), slug := slug.GetOr(row.slug),
                                           isActive := isActive.GetOr(row.isActive), version := row.version + 1)]),
                                               None)
  }

  ghost function Move(cap: nat, t: Table, id: nat, parentId: Option<nat>, sortOrder: Option<nat>): Outcome {
    if !Live(t.rows, id) then Outcome(t, Some(NotFound))
    else if parentId.Some? && !Live(t.rows, parentId.value) then Outcome(t, Some(ParentMissing))
    else match Refusal(cap, t.rows, id, parentId)
      case Some(Cycle) => Outcome(t, Some(MoveIntoSelf))
      case Some(TooDeep) => Outcome(t, Some(DepthExceeded))
      case None => Outcome(t.(rows := MoveRows(t.rows, id, parentId, MoveOrder(t.rows, id, parentId, sortOrder))), None)
  }

  /** The position is kept under the same parent; otherwise the node lands after its new siblings. */
  ghost function MoveOrder(rows: Rows, id: nat, parentId: Option<nat>, sortOrder: Option<nat>): Option<int>
    requires id in rows
  {
    if sortOrder.Some? then Some(sortOrder.value)
    else if parentId == rows[id].parentId then None
    else Some(NextSortOrder(rows, parentId))
  }

  function Children(rows: Rows, parentId: Option<nat>): set<nat> {
    set id | id in rows && rows[id].parentId == parentId && !rows[id].deleted
  }

  function ReorderRows(rows: Rows, orderedIds: seq<nat>): Rows {
    map k | k in rows :: if k in orderedIds then rows[k].(sortOrder := IndexOf(orderedIds, k)) else rows[k]
  }

  function Reorder(t: Table, parentId: Option<nat>, orderedIds: seq<nat>): Outcome {
    var expected, given := Children(t.rows, parentId), Elements(orderedIds);
    if |given| != |orderedIds| || |given| != |expected| || exists id :: id in orderedIds && id !in expected
    then Outcome(t, Some(ReorderMismatch))
    else Outcome(t.(rows := ReorderRows(t.rows, orderedIds)), None)
  }

  function Remove(t: Table, id: nat): Outcome {
    if !Live(t.rows, id) then Outcome(t, Some(NotFound))
    else if Children(t.rows, Some(id)) != {} then Outcome(t, Some(HasChildren))
    else
      var row := t.rows[id];
      Outcome(t.(rows := t.rows[id := row.(deleted := true, isActive := false, version := row.version + 1)]), None)
  }

  // ------------------------------------------------- what each write keeps

  /** The columns the tree's shape is made of. */
  ghost predicate SameShape(a: Category, b: Category) {
    a.id == b.id && a.parentId == b.parentId && a.parentPath == b.parentPath && a.path == b.path && a.depth == b.depth
  }

  lemma {:induction false} ShapeKept(cap: nat, rows: Rows, after: Rows)
    requires WellFormed(cap, rows) && after.Keys == rows.Keys
    requires forall id :: id in rows ==> SameShape(rows[id], after[id])
    requires LiveUnderLive(after)
    ensures WellFormed(cap, after)
  {
    forall id | id in after ensures RowValid(cap, after, id) {
      assert RowValid(cap, rows, id) && SameShape(rows[id], after[id]);
      if rows[id].parentId.Some? { assert SameShape(rows[rows[id].parentId.value], after[rows[id].parentId.value]); }
    }
  }

  lemma {:induction false} WellFormedLive(cap: nat, rows: Rows)
    requires WellFormed(cap, rows)
    ensures LiveUnderLive(rows)
  {
    WellFormedIsForest(cap, rows);
  }

  lemma {:induction false} CreatedRow(cap: nat, rows: Rows, id: nat, parentId: Option<nat>, name: string, slug: string,
                                      sortOrder: int)
    requires WellFormed(cap, rows) && cap > 0 && id !in rows
    requires parentId.Some? ==> Live(rows, parentId.value) && rows[parentId.value].depth < cap
    ensures var row := NewRow(rows, id, parentId, name, slug, sortOrder);
            row.depth == Depth(row.path) && 1 <= row.depth <= cap
  {
    var up := match parentId case None => [] case Some(p) => Lineage(cap, rows, p);
    RenderChild(up, id);
    RenderDepth(up + [id]);
    assert [] + [id] == [id];
  }

  lemma {:induction false} CreateKeeps(cap: nat, t: Table, parentId: Option<nat>, name: string, slug: string,
                                       sortOrder: Option<nat>)
    requires Inv(cap, t)
    ensures Inv(cap, Create(cap, t, parentId, name, slug, sortOrder).table)
  {
    var after := Create(cap, t, parentId, name, slug, sortOrder);
    if after.error.None? {
      var id, rows := t.next, after.table.rows;
      assert id !in t.rows;
      CreatedRow(cap, t.rows, id, parentId, name, slug, rows[id].sortOrder);
      forall k | k in rows ensures RowValid(cap, rows, k) {
        if k != id { assert RowValid(cap, t.rows, k); }
      }
    }
  }

  lemma {:induction false} UpdateKeeps(cap: nat, t: Table, id: nat, version: nat, name: Option<string>,
                                       slug: Option<string>, isActive: Option<bool>)
    requires Inv(cap, t)
    ensures Inv(cap, Update(t, id, version, name, slug, isActive).table)
  {
    WellFormedLive(cap, t.rows);
    ShapeKept(cap, t.rows, Update(t, id, version, name, slug, isActive).table.rows);
  }

  lemma {:induction false} MoveKeeps(cap: nat, t: Table, id: nat, parentId: Option<nat>, sortOrder: Option<nat>)
    requires Inv(cap, t)
    ensures Inv(cap, Move(cap, t, id, parentId, sortOrder).table)
  {
    var after := Move(cap, t, id, parentId, sortOrder);
    if after.error.None? {
      var order := MoveOrder(t.rows, id, parentId, sortOrder);
      MoveRecomputes(cap, t.rows, id, parentId, order);
      var rows := after.table.rows;
      assert UniqueSlugs(rows) by {
        forall a, b | a in rows && b in rows && a != b && !rows[a].deleted && !rows[b].deleted
          ensures rows[a].slug != rows[b].slug {
          assert OnlyMoved(t.rows[a], rows[a], id, parentId, order)
          && OnlyMoved(t.rows[b], rows[b], id, parentId, order);
        }
      }
    }
  }

  lemma {:induction false} ReorderKeeps(cap: nat, t: Table, parentId: Option<nat>, orderedIds: seq<nat>)
    requires Inv(cap, t)
    ensures Inv(cap, Reorder(t, parentId, orderedIds).table)
  {
    WellFormedLive(cap, t.rows);
    ShapeKept(cap, t.rows, Reorder(t, parentId, orderedIds).table.rows);
  }

  lemma {:induction false} RemoveKeeps(cap: nat, t: Table, id: nat)
    requires Inv(cap, t)
    ensures Inv(cap, Remove(t, id).table)
  {
    WellFormedLive(cap, t.rows);
    var after := Remove(t, id);
    if after.error.None? {
      var rows := after.table.rows;
      assert LiveUnderLive(rows) by {
        forall k | k in rows && !rows[k].deleted && rows[k].parentId.Some? && rows[k].parentId.value in rows
          ensures !rows[rows[k].parentId.value].deleted
        {
          assert k !in Children(t.rows, Some(id));
        }
      }
      ShapeKept(cap, t.rows, rows);
    }
  }

  // --------------------------------------------------------------- decisions

  /** A new node is refused for depth exactly when its own chain would be longer than the cap. */
  lemma {:induction false} CreateDecision(cap: nat, t: Table, parentId: Option<nat>, name: string, slug: string,
                                          sortOrder: Option<nat>)
    requires Inv(cap, t) && (parentId.Some? ==> Live(t.rows, parentId.value))
    ensures Create(cap, t, parentId, name, slug, sortOrder).error == Some(DepthExceeded)
       <==> |(match parentId case None => [] case Some(p) => Lineage(cap, t.rows, p)) + [t.next]| > cap
  {
  }

  /** A new node hangs below its parent's chain and, unless told otherwise, after every live sibling. */
  lemma {:induction false} CreatePlaces(cap: nat, t: Table, parentId: Option<nat>, name: string, slug: string,
                                        sortOrder: Option<nat>)
    requires Inv(cap, t) && Create(cap, t, parentId, name, slug, sortOrder).error.None?
    ensures var after := Create(cap, t, parentId, name, slug, sortOrder).table;
            && after.rows.Keys == t.rows.Keys + {t.next}
            && Inv(cap, after)
            && Lineage(cap, after.rows, t.next)
                == (match parentId case None => [] case Some(p) => Lineage(cap, t.rows, p)) + [t.next]
            && (forall k :: k in t.rows ==> after.rows[k] == t.rows[k])
            && (sortOrder.None? ==> forall k :: k in Children(t.rows, parentId) ==>
                                                    t.rows[k].sortOrder < after.rows[t.next].sortOrder)
  {
    CreateKeeps(cap, t, parentId, name, slug, sortOrder);
    CreatedLineage(cap, t, parentId, Create(cap, t, parentId, name, slug, sortOrder).table.rows);
    NextIsLast(t.rows, parentId);
  }

  /**
   * A category is created exactly under a live parent, if any, whose chain is shorter than the cap, with a slug no live
   * row has. It stands with the name, slug and position given, active, unedited and not retired; left to itself it
   * comes after the last live sibling, or first without one.
   */
  lemma {:induction false} CreateExact(cap: nat, t: Table, parentId: Option<nat>, name: string, slug: string,
                                       sortOrder: Option<nat>)
    requires Inv(cap, t)
    ensures var done := Create(cap, t, parentId, name, slug, sortOrder);
            var parentLive := parentId.None? || (parentId.value in t.rows && !t.rows[parentId.value].deleted);
            var roomBelow := parentId.Some? && parentLive ==> |Lineage(cap, t.rows, parentId.value)| < cap;
            var slugTaken := exists k :: k in t.rows && !t.rows[k].deleted && t.rows[k].slug == slug;
            && (done.error == Some(ParentMissing) <==> !parentLive)
            && (done.error == Some(DepthExceeded) <==> parentLive && !roomBelow)
            && (done.error == Some(SlugTaken) <==> parentLive && roomBelow && slugTaken)
            && (done.error.None? <==> parentLive && roomBelow && !slugTaken)
            && (done.error.Some? ==>
                    done.table == Table(t.rows, if done.error == Some(SlugTaken) then t.next + 1 else t.next))
    ensures Create(cap, t, parentId, name, slug, sortOrder).error.None? ==>
              var after := Create(cap, t, parentId, name, slug, sortOrder).table;
              && after.next == t.next + 1 && after.rows == t.rows[t.next := after.rows[t.next]]
              && var row := after.rows[t.next];
                 && row.id == t.next && row.parentId == parentId && row.name == name && row.slug == slug
                 && row.isActive && row.version == 0 && !row.deleted
                 && (if sortOrder.Some? then row.sortOrder == sortOrder.value
                     else IsPlaceAfter(t.rows, parentId, row.sortOrder))
  {
    if parentId.Some? && Live(t.rows, parentId.value) { assert RowValid(cap, t.rows, parentId.value); }
    if Create(cap, t, parentId, name, slug, sortOrder).error.None? {
      CreatePlaces(cap, t, parentId, name, slug, sortOrder);
      NextIsPlaceAfter(t.rows, parentId);
    }
  }

  /** One past the greatest position among the live children, or the first place when there are none. */
  ghost predicate IsPlaceAfter(rows: Rows, parentId: Option<nat>, place: int) {
    && (forall k :: k in rows && rows[k].parentId == parentId && !rows[k].deleted ==> rows[k].sortOrder < place)
    && (place == 0 || exists k :: k in rows && rows[k].parentId == parentId && !rows[k].deleted
                                  && rows[k].sortOrder == place - 1)
  }

  lemma {:induction false} NextIsPlaceAfter(rows: Rows, parentId: Option<nat>)
    ensures IsPlaceAfter(rows, parentId, NextSortOrder(rows, parentId))
  {
    var orders := SiblingOrders(rows, parentId);
    forall k | k in rows && rows[k].parentId == parentId && !rows[k].deleted
      ensures rows[k].sortOrder < NextSortOrder(rows, parentId)
    {
      assert rows[k].sortOrder in orders;
    }
  }

  lemma {:induction false} NextIsLast(rows: Rows, parentId: Option<nat>)
    ensures forall k :: k in Children(rows, parentId) ==> rows[k].sortOrder < NextSortOrder(rows, parentId)
  {
    forall k | k in Children(rows, parentId) ensures rows[k].sortOrder < NextSortOrder(rows, parentId) {
      assert rows[k].sortOrder in SiblingOrders(rows, parentId);
    }
  }

  lemma {:induction false} CreatedLineage(cap: nat, t: Table, parentId: Option<nat>, after: Rows)
    requires WellFormed(cap, t.rows) && WellFormed(cap, after) && t.next !in t.rows
    requires (parentId.Some? ==> parentId.value in t.rows)
    requires after.Keys == t.rows.Keys + {t.next} && after[t.next].parentId == parentId
    requires forall k :: k in t.rows ==> after[k] == t.rows[k]
    ensures Lineage(cap, after, t.next) == (match parentId case None => [] case Some(p) => Lineage(cap, t.rows, p))
                + [t.next]
  {
    var up := match parentId case None => [] case Some(p) => Lineage(cap, t.rows, p);
    var ids := up + [t.next];
    assert LineageOf(after, t.next, ids) by {
      forall i | 0 <= i < |ids| ensures ids[i] in after && (i > 0 ==> after[ids[i]].parentId == Some(ids[i - 1])) {
        if i < |up| { assert up[i] in t.rows; }
      }
      assert ids[0] == if up == [] then t.next else up[0];
    }
    LineageUnique(after, t.next, ids, Lineage(cap, after, t.next));
  }

  /** A reorder is accepted exactly for an arrangement of all the live children, and then puts each at its position. */
  lemma {:induction false} ReorderExact(t: Table, parentId: Option<nat>, orderedIds: seq<nat>)
    ensures Reorder(t, parentId, orderedIds).error.None?
       <==> Distinct(orderedIds) && Elements(orderedIds) == Children(t.rows, parentId)
    ensures Reorder(t, parentId, orderedIds).error.Some? ==>
              Reorder(t, parentId, orderedIds) == Outcome(t, Some(ReorderMismatch))
    ensures Reorder(t, parentId, orderedIds).table.next == t.next
    ensures Reorder(t, parentId, orderedIds).error.None? ==>
              var after := Reorder(t, parentId, orderedIds).table;
              && after.rows.Keys == t.rows.Keys
              && (forall i :: 0 <= i < |orderedIds| ==> orderedIds[i] in t.rows
                                                        && after.rows[orderedIds[i]]
                                                            == t.rows[orderedIds[i]].(sortOrder := i))
              && (forall k :: k in t.rows && k !in orderedIds ==> after.rows[k] == t.rows[k])
  {
    var expected, given := Children(t.rows, parentId), Elements(orderedIds);
    if Reorder(t, parentId, orderedIds).error.None? {
      CardinalityDistinct(orderedIds);
      assert given <= expected;
      SameSizeSubset(given, expected);
      forall i | 0 <= i < |orderedIds| ensures orderedIds[i] in t.rows && IndexOf(orderedIds, orderedIds[i]) == i {
        assert orderedIds[i] in given;
      }
    }
    if Distinct(orderedIds) && given == expected {
      DistinctCardinality(orderedIds);
      forall id | id in orderedIds ensures id in expected { assert id in given; }
    }
  }

  /** An edit is written exactly for a live row of that version and a free slug, and touches only what it names. */
  lemma {:induction false} UpdateExact(t: Table, id: nat, version: nat, name: Option<string>, slug: Option<string>,
                                       isActive: Option<bool>)
    ensures var done := Update(t, id, version, name, slug, isActive);
            && (done.error.None? <==> Live(t.rows, id) && t.rows[id].version == version
                                      && (slug.Some? ==> forall k :: k in t.rows && k != id && !t.rows[k].deleted ==>
                                                                         t.rows[k].slug != slug.value))
            && (done.error == Some(NotFound) <==> !Live(t.rows, id))
            && (done.error == Some(VersionConflict) <==> Live(t.rows, id) && t.rows[id].version != version)
            && (done.error == Some(SlugTaken) <==>
                  && Live(t.rows, id) && t.rows[id].version == version && slug.Some?
                  && exists k :: k in t.rows && k != id && !t.rows[k].deleted && t.rows[k].slug == slug.value)
            && done.table.next == t.next
            && (done.error.None? ==>
                  && done.table.rows.Keys == t.rows.Keys
                  && (forall k :: k in t.rows && k != id ==> done.table.rows[k] == t.rows[k])
                  && var row := done.table.rows[id];
                     && SameShape(t.rows[id], row) && row.sortOrder == t.rows[id].sortOrder && !row.deleted
                     && row.version == version + 1
                     && (if name.Some? then row.name == name.value else row.name == t.rows[id].name)
                     && (if slug.Some? then row.slug == slug.value else row.slug == t.rows[id].slug)
                     && (if isActive.Some? then row.isActive == isActive.value
                         else row.isActive == t.rows[id].isActive))
  {
  }

  /** A removal is written exactly for a live row with no live child, and retires it and nothing else. */
  lemma {:induction false} RemoveExact(t: Table, id: nat)
    ensures var done := Remove(t, id);
            && (done.error.None? <==> Live(t.rows, id) && forall k :: k in t.rows && !t.rows[k].deleted ==>
                                                                          t.rows[k].parentId != Some(id))
            && (done.error == Some(HasChildren) <==> Live(t.rows, id) && exists k ::
                                                         k in t.rows && !t.rows[k].deleted
                                                         && t.rows[k].parentId == Some(id))
            && (done.error.None? ==>
                  && done.table.rows.Keys == t.rows.Keys
                  && (forall k :: k in t.rows && k != id ==> done.table.rows[k] == t.rows[k])
                  && done.table.next == t.next
                  && done.table.rows[id]
                      == t.rows[id].(deleted := true, isActive := false, version := t.rows[id].version + 1))
            && (done.error == Some(NotFound) <==> !(id in t.rows && !t.rows[id].deleted))
  {
    if k :| k in t.rows && !t.rows[k].deleted && t.rows[k].parentId == Some(id) {
      assert k in Children(t.rows, Some(id));
    }
    if Children(t.rows, Some(id)) != {} {
      var k := Pick(Children(t.rows, Some(id)));
      assert k in t.rows && !t.rows[k].deleted && t.rows[k].parentId == Some(id);
    }
  }

  /** Everything a move leaves alone in every row. */
  ghost predicate SameButPlace(before: Category, after: Category) {
    && after.id == before.id && after.name == before.name && after.slug == before.slug
    && after.isActive == before.isActive && after.version == before.version && after.deleted == before.deleted
  }

  /**
   * A move is written exactly between live rows whose re-parented tree is acyclic and within the cap; the node
   * hangs under its destination, at the position given, where it was, or after every live sibling there.
   */
  lemma {:induction false} MoveExact(cap: nat, t: Table, id: nat, parentId: Option<nat>, sortOrder: Option<nat>)
    requires Inv(cap, t)
    ensures Move(cap, t, id, parentId, sortOrder).error.None?
       <==> Live(t.rows, id) && (parentId.Some? ==> Live(t.rows, parentId.value))
            && AcyclicWithin(cap, Reparent(t.rows, id, parentId))
    ensures Move(cap, t, id, parentId, sortOrder).error == Some(MoveIntoSelf)
       <==> Live(t.rows, id) && parentId.Some? && Live(t.rows, parentId.value)
            && AtOrBelow(cap, t.rows, parentId.value, id)
    ensures Move(cap, t, id, parentId, sortOrder).error == Some(NotFound) <==> !Live(t.rows, id)
    ensures Move(cap, t, id, parentId, sortOrder).error == Some(ParentMissing)
       <==> Live(t.rows, id) && parentId.Some? && !Live(t.rows, parentId.value)
    ensures Move(cap, t, id, parentId, sortOrder).error == Some(DepthExceeded)
       <==> Live(t.rows, id) && (parentId.Some? ==> Live(t.rows, parentId.value))
            && !(parentId.Some? && AtOrBelow(cap, t.rows, parentId.value, id))
            && !AcyclicWithin(cap, Reparent(t.rows, id, parentId))
    ensures Move(cap, t, id, parentId, sortOrder).error.None? ==>
              var after := Move(cap, t, id, parentId, sortOrder).table;
              && after.next == t.next && after.rows.Keys == t.rows.Keys && WellFormed(cap, after.rows)
              && (forall k :: k in t.rows ==> SameButPlace(t.rows[k], after.rows[k]))
              && (forall k :: k in t.rows && k != id ==>
                                after.rows[k].parentId == t.rows[k].parentId
                                && after.rows[k].sortOrder == t.rows[k].sortOrder)
              && after.rows[id].parentId == parentId
              && (if sortOrder.Some? then after.rows[id].sortOrder == sortOrder.value
                  else if parentId == t.rows[id].parentId then after.rows[id].sortOrder == t.rows[id].sortOrder
                  else IsPlaceAfter(t.rows, parentId, after.rows[id].sortOrder))
  {
    if Live(t.rows, id) && (parentId.Some? ==> Live(t.rows, parentId.value)) {
      MoveDecision(cap, t.rows, id, parentId);
      var position := MoveOrder(t.rows, id, parentId, sortOrder);
      if Refusal(cap, t.rows, id, parentId).None? {
        MoveRecomputes(cap, t.rows, id, parentId, position);
        forall k | k in t.rows
          ensures OnlyMoved(t.rows[k], MoveRows(t.rows, id, parentId, position)[k], id, parentId, position)
                                       && t.rows[k].id == k {
          assert RowValid(cap, t.rows, k);
        }
      }
      NextIsPlaceAfter(t.rows, parentId);
    }
  }

  // -------------------------------------------------------------- whole runs

  datatype Op =
    | CreateOp(parentId: Option<nat>, name: string, slug: string, sortOrder: Option<nat>)
    | UpdateOp(id: nat, version: nat, newName: Option<string>, newSlug: Option<string>, isActive: Option<bool>)
    | MoveOp(id: nat, to: Option<nat>, position: Option<nat>)
    | ReorderOp(under: Option<nat>, orderedIds: seq<nat>)
    | RemoveOp(id: nat)

  ghost function Step(cap: nat, t: Table, op: Op): Outcome {
    match op
    case CreateOp(parentId, name, slug, sortOrder) => Create(cap, t, parentId, name, slug, sortOrder)
    case UpdateOp(id, version, name, slug, isActive) => Update(t, id, version, name, slug, isActive)
    case MoveOp(id, to, position) => Move(cap, t, id, to, position)
    case ReorderOp(under, orderedIds) => Reorder(t, under, orderedIds)
    case RemoveOp(id) => Remove(t, id)
  }

  ghost function Run(cap: nat, t: Table, ops: seq<Op>): Table
    decreases |ops|
  {
    if ops == [] then t else Run(cap, Step(cap, t, ops[0]).table, ops[1..])
  }

  /** What no write undoes: a row stays, keeps its id, and once retired stays retired. */
  ghost predicate History(before: Rows, after: Rows) {
    && before.Keys <= after.Keys
    && forall id :: id in before ==> after[id].id == before[id].id && (before[id].deleted ==> after[id].deleted)
  }

  lemma {:induction false} StepKeeps(cap: nat, t: Table, op: Op)
    requires Inv(cap, t)
    ensures Inv(cap, Step(cap, t, op).table)
    ensures History(t.rows, Step(cap, t, op).table.rows)
  {
    StepKeepsInv(cap, t, op);
    StepKeepsHistory(cap, t, op);
  }

  lemma {:induction false} StepKeepsInv(cap: nat, t: Table, op: Op)
    requires Inv(cap, t)
    ensures Inv(cap, Step(cap, t, op).table)
  {
    match op
    case CreateOp(parentId, name, slug, sortOrder) => CreateKeeps(cap, t, parentId, name, slug, sortOrder);
    case UpdateOp(id, version, name, slug, isActive) => UpdateKeeps(cap, t, id, version, name, slug, isActive);
    case MoveOp(id, to, position) => MoveKeeps(cap, t, id, to, position);
    case ReorderOp(under, orderedIds) => ReorderKeeps(cap, t, under, orderedIds);
    case RemoveOp(id) => RemoveKeeps(cap, t, id);
  }

  lemma {:induction false} StepKeepsHistory(cap: nat, t: Table, op: Op)
    requires Inv(cap, t)
    ensures History(t.rows, Step(cap, t, op).table.rows)
  {
    if op.MoveOp? { MoveKeepsHistory(cap, t, op); }
  }

  lemma {:induction false} MoveKeepsHistory(cap: nat, t: Table, op: Op)
    requires Inv(cap, t) && op.MoveOp?
    ensures History(t.rows, Step(cap, t, op).table.rows)
  {
  }

  /** A refused write changes no row. */
  lemma {:induction false} RefusedChangesNothing(cap: nat, t: Table, op: Op)
    ensures Step(cap, t, op).error.Some? ==> Step(cap, t, op).table.rows == t.rows
  {
  }

  /**
   * Every run of creates, edits, moves, reorders and removals, from any well-formed table, ends in a
   * well-formed forest: cached columns that agree with the parent edges, no cycle, nothing deeper than
   * the cap (retired rows included), live rows under live parents, one live row per slug, and no id or
   * retirement ever taken back.
   */
  lemma {:induction false} RunKeepsForest(cap: nat, t: Table, ops: seq<Op>)
    requires Inv(cap, t)
    ensures Inv(cap, Run(cap, t, ops))
    ensures Forest(cap, Run(cap, t, ops).rows)
    ensures AcyclicWithin(cap, Run(cap, t, ops).rows)
    ensures History(t.rows, Run(cap, t, ops).rows)
    decreases |ops|
  {
    if ops == [] {
      WellFormedIsForest(cap, t.rows);
      WellFormedAcyclic(cap, t.rows);
    } else {
      StepKeeps(cap, t, ops[0]);
      RunKeepsForest(cap, Step(cap, t, ops[0]).table, ops[1..]);
    }
  }

  lemma {:induction false} EmptyTable(cap: nat)
    requires cap > 0
    ensures Inv(cap, Table(map[], 1))
  {
  }

  /** So every run from the table as the migration leaves it does, under any depth cap. */
  lemma {:induction false} RunFromEmpty(cap: nat, ops: seq<Op>)
    requires cap > 0
    ensures Inv(cap, Run(cap, Table(map[], 1), ops)) && Forest(cap, Run(cap, Table(map[], 1), ops).rows)
  {
    EmptyTable(cap);
    RunKeepsForest(cap, Table(map[], 1), ops);
  }
}
