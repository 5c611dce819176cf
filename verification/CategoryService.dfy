/** The category service: a table rewritten in place by its writes, each proved against its specification. */
module CategoryService {
  import opened Prelude
  import Texts
  import opened SearchPattern
  import opened CategoryPath
  import opened CategoryTree
  import opened CategoryMove
  import Writes = CategoryWrites

  type CategoryError = Writes.CategoryError

  class Categories {
    const cap: nat
    var rows: Rows
    var next: nat

    ghost predicate Valid() reads this { Writes.Inv(cap, Contents()) }

    function Contents(): Writes.Table reads this { Writes.Table(rows, next) }

    constructor (cap: nat)
      requires cap > 0
      ensures Valid() && this.cap == cap && Contents() == Writes.Table(map[], 1)
    {
      this.cap := cap;
      rows, next := map[], 1;
    }

    /** The destination parent's row, or the refusal when it is not a live category. */
    method ParentFor(parentId: Option<nat>) returns (parent: Result<Option<Category>, CategoryError>)
      requires Valid()
      ensures parent == if parentId.Some? && !Live(rows, parentId.value) then Err(Writes.ParentMissing)
                  else Ok(ParentRow(rows, parentId))
    {
      if parentId.None? { return Ok(None); }
      if parentId.value !in rows || rows[parentId.value].deleted { return Err(Writes.ParentMissing); }
      return Ok(Some(rows[parentId.value]));
    }

    /** Deepest level anywhere in the subtree at `path`, soft-deleted rows included. */
    method DeepestBelow(path: string) returns (depth: int)
      requires Valid()
      ensures depth == SubtreeDepth(rows, path)
    {
      var depths := set id | id in rows && Like(rows[id].path, path + "%") :: rows[id].depth;
      if depths == {} { return 0; }
      depth := Greatest(depths);
    }

    /** One past the last live sibling. */
    method LastPosition(parentId: Option<nat>) returns (next: int)
      requires Valid()
      ensures next == Writes.NextSortOrder(rows, parentId)
    {
      var orders := set id | id in rows && rows[id].parentId == parentId && !rows[id].deleted :: rows[id].sortOrder;
      assert orders == Writes.SiblingOrders(rows, parentId);
      if orders == {} { return 0; }
      var last := Greatest(orders);
      next := last + 1;
    }

    method Create(parentId: Option<nat>, name: string, slug: string, sortOrder: Option<nat>)
      returns (created: Result<Category, CategoryError>)
      requires Valid()
      modifies this
      ensures Valid()
      ensures Writes.Outcome(Contents(), if created.Ok? then None else Some(created.error))
           == Writes.Create(cap, old(Contents()), parentId, name, slug, sortOrder)
      ensures created.Ok? ==> old(next) in rows && created.value == rows[old(next)]
    {
      Writes.CreateKeeps(cap, Contents(), parentId, name, slug, sortOrder);
      var parent := ParentFor(parentId);
      if parent.Err? { return Err(parent.error); }
      if parent.value.Some? && parent.value.value.depth >= cap { return Err(Writes.DepthExceeded); }
      var order: int;
      if sortOrder.Some? { order := sortOrder.value; } else { order := LastPosition(parentId); }
      var parentPath := PathOfParent(parent.value);
      var depth := (match parent.value case None => 0 case Some(p) => p.depth) + 1;
      var id := next;
      next := next + 1;
      if !Writes.SlugFree(rows, slug, None) { return Err(Writes.SlugTaken); }
      var row := Category(id, parentId, parentPath, parentPath.GetOr("/") + Texts.Dec(id) + "/", depth, name, slug,
                          order, true, 0, false);
      rows := rows[id := row];
      return Ok(row);
    }

    method Update(id: nat, version: nat, name: Option<string>, slug: Option<string>, isActive: Option<bool>)
      returns (updated: Result<Category, CategoryError>)
      requires Valid()
      modifies this`rows
      ensures Valid()
      ensures Writes.Outcome(Contents(), if updated.Ok? then None else Some(updated.error))
           == Writes.Update(old(Contents()), id, version, name, slug, isActive)
      ensures updated.Ok? ==> id in rows && updated.value == rows[id]
    {
      Writes.UpdateKeeps(cap, Contents(), id, version, name, slug, isActive);
      if id in rows && !rows[id].deleted && rows[id].version == version {
        if slug.Some? && !Writes.SlugFree(rows, slug.value, Some(id)) { return Err(Writes.SlugTaken); }
        var row := rows[id];
        rows := rows[id := row.(name := name.GetOr(row.name), slug := slug.GetOr(row.slug),
                                isActive := isActive.GetOr(row.isActive), version := row.version + 1)];
        return Ok(rows[id]);
      }
      if id !in rows || rows[id].deleted { return Err(Writes.NotFound); }
      return Err(Writes.VersionConflict);
    }

    method Move(id: nat, parentId: Option<nat>, sortOrder: Option<nat>) returns (moved: Result<Category, CategoryError>)
      requires Valid()
      modifies this`rows
      ensures Valid()
      ensures Writes.Outcome(Contents(), if moved.Ok? then None else Some(moved.error))
           == Writes.Move(cap, old(Contents()), id, parentId, sortOrder)
      ensures moved.Ok? ==> id in rows && moved.value == rows[id]
    {
      Writes.MoveKeeps(cap, Contents(), id, parentId, sortOrder);
      if id !in rows || rows[id].deleted { return Err(Writes.NotFound); }
      var node := rows[id];
      var parent := ParentFor(parentId);
      if parent.Err? { return Err(parent.error); }
      var subtreeDepth := DeepestBelow(node.path);
      var destination := match parent.value
        case None => MoveDestination(None, 0)
        case Some(p) => MoveDestination(Some(p.path), p.depth);
      var refusal := RefuseMove(cap, MoveCandidate(node.path, node.depth, subtreeDepth), destination);
      if refusal == Some(Cycle) { return Err(Writes.MoveIntoSelf); }
      if refusal == Some(TooDeep) { return Err(Writes.DepthExceeded); }
      var position: Option<int>;
      if sortOrder.Some? {
        position := Some(sortOrder.value);
      } else if parentId == node.parentId {
        position := None;
      } else {
        var last := LastPosition(parentId);
        position := Some(last);
      }
      rows := map k | k in rows :: if Like(rows[k].path, node.path + "%")
          then Rewritten(rows[k], node, parent.value, position) else rows[k];
      return Ok(rows[id]);
    }

    /** Writes each listed row's position, first to last. */
    method Renumber(orderedIds: seq<nat>)
      requires Distinct(orderedIds) && forall i :: 0 <= i < |orderedIds| ==> orderedIds[i] in rows
      modifies this`rows
      ensures rows == Writes.ReorderRows(old(rows), orderedIds)
    {
      ghost var before := rows;
      for position := 0 to |orderedIds|
        invariant rows.Keys == before.Keys
        invariant forall i :: 0 <= i < position ==> rows[orderedIds[i]] == before[orderedIds[i]].(sortOrder := i)
        invariant forall i :: position <= i < |orderedIds| ==> rows[orderedIds[i]] == before[orderedIds[i]]
        invariant forall k :: k in before && k !in orderedIds ==> rows[k] == before[k]
      {
        rows := rows[orderedIds[position] := rows[orderedIds[position]].(sortOrder := position)];
      }
      forall k | k in before ensures rows[k] == Writes.ReorderRows(before, orderedIds)[k] {
        if k in orderedIds {
          assert rows[orderedIds[IndexOf(orderedIds, k)]] == before[k].(sortOrder := IndexOf(orderedIds, k));
        }
      }
    }

    method Reorder(parentId: Option<nat>, orderedIds: seq<nat>) returns (error: Option<CategoryError>)
      requires Valid()
      modifies this`rows
      ensures Valid()
      ensures Writes.Outcome(Contents(), error) == Writes.Reorder(old(Contents()), parentId, orderedIds)
    {
      Writes.ReorderKeeps(cap, Contents(), parentId, orderedIds);
      Writes.ReorderExact(Contents(), parentId, orderedIds);
      var expected := Writes.Children(rows, parentId);
      var given := Elements(orderedIds);
      if |given| != |orderedIds| || |given| != |expected| || exists id :: id in orderedIds && id !in expected {
        return Some(Writes.ReorderMismatch);
      }
      Renumber(orderedIds);
      return None;
    }

    method Remove(id: nat) returns (removed: Result<Category, CategoryError>)
      requires Valid()
      modifies this`rows
      ensures Valid()
      ensures Writes.Outcome(Contents(), if removed.Ok? then None else Some(removed.error))
           == Writes.Remove(old(Contents()), id)
      ensures removed.Ok? ==> id in rows && removed.value == rows[id]
    {
      Writes.RemoveKeeps(cap, Contents(), id);
      if id !in rows || rows[id].deleted { return Err(Writes.NotFound); }
      if Writes.Children(rows, Some(id)) != {} { return Err(Writes.HasChildren); }
      rows := rows[id := rows[id].(deleted := true, isActive := false, version := rows[id].version + 1)];
      return Ok(rows[id]);
    }
  }
}
