/**
 * Why the writes may be treated as atomic: every structural write takes the tree lock before its first
 * read, while an edit of a name, slug or visibility takes no lock and may land between a holder's reads
 * and its statement. Whatever the interleaving, the table is the one some serial run leaves.
 */
module CategoryLock {
  import opened Prelude
  import opened SearchPattern
  import opened CategoryPath
  import opened CategoryTree
  import opened CategoryMove
  import opened CategoryWrites

  // ------------------------------------- decided from a snapshot, written now

  /** Two states of the table that differ only in what an unlocked edit may change. */
  ghost predicate Agrees(a: Rows, b: Rows) {
    && a.Keys == b.Keys
    && forall id {:trigger a[id]} {:trigger b[id]} :: id in a ==>
                                                     SameShape(a[id], b[id]) && a[id].sortOrder == b[id].sortOrder
                                                     && a[id].deleted == b[id].deleted
  }

  /** The write of `op` on the table `t`, with every decision and every value taken from the rows `read` earlier. */
  ghost function Write(cap: nat, read: Rows, t: Table, op: Op): Outcome {
    match op
    case CreateOp(parentId, name, slug, sortOrder) =>
      if parentId.Some? && !Live(read, parentId.value) then Outcome(t, Some(ParentMissing))
      else if parentId.Some? && read[parentId.value].depth >= cap then Outcome(t, Some(DepthExceeded))
      else if !SlugFree(t.rows, slug, None) then Outcome(t.(next := t.next + 1), Some(SlugTaken))
      else
        var order := match sortOrder case Some(n) => n case None => NextSortOrder(read, parentId);
        Outcome(Table(t.rows[t.next := NewRow(read, t.next, parentId, name, slug, order)], t.next + 1), None)
    case MoveOp(id, to, position) =>
      if !Live(read, id) then Outcome(t, Some(NotFound))
      else if to.Some? && !Live(read, to.value) then Outcome(t, Some(ParentMissing))
      else (match Refusal(cap, read, id, to)
            case Some(Cycle) => Outcome(t, Some(MoveIntoSelf))
            case Some(TooDeep) => Outcome(t, Some(DepthExceeded))
            case None => Outcome(t.(rows := Rebased(t.rows, read[id], ParentRow(read, to),
                                                    MoveOrder(read, id, to, position))), None))
    case ReorderOp(under, orderedIds) =>
      var expected, given := Children(read, under), Elements(orderedIds);
      if |given| != |orderedIds| || |given| != |expected| || exists id :: id in orderedIds && id !in expected
      then Outcome(t, Some(ReorderMismatch))
      else Outcome(t.(rows := ReorderRows(t.rows, orderedIds)), None)
    case RemoveOp(id) =>
      if !Live(read, id) then Outcome(t, Some(NotFound))
      else if Children(read, Some(id)) != {} then Outcome(t, Some(HasChildren))
      else if !Live(t.rows, id) then Outcome(t, Some(NotFound))
      else
        var row := t.rows[id];
        Outcome(t.(rows := t.rows[id := row.(deleted := true, isActive := false, version := row.version + 1)]), None)
    case UpdateOp(_, _, _, _, _) => Step(cap, t, op)
  }

  /** The bulk statement over the current rows, with the moved node and its destination as read earlier. */
  function Rebased(rows: Rows, node: Category, parent: Option<Category>, sortOrder: Option<int>): Rows {
    map k | k in rows :: if Like(rows[k].path, node.path + "%") then Rewritten(rows[k], node, parent, sortOrder)
        else rows[k]
  }

  lemma {:induction false} AgreeingReads(cap: nat, a: Rows, b: Rows, id: nat, parentId: Option<nat>,
                                         position: Option<nat>)
    requires Agrees(a, b)
    ensures NextSortOrder(a, parentId) == NextSortOrder(b, parentId)
    ensures Children(a, parentId) == Children(b, parentId)
    ensures id in a ==> SubtreeDepth(a, a[id].path) == SubtreeDepth(b, b[id].path)
    ensures id in a && (parentId.Some? ==> parentId.value in a) ==>
                Refusal(cap, a, id, parentId) == Refusal(cap, b, id, parentId)
    ensures id in a ==> MoveOrder(a, id, parentId, position) == MoveOrder(b, id, parentId, position)
  {
    assert SiblingOrders(a, parentId) == SiblingOrders(b, parentId);
    if id in a {
      assert SameShape(a[id], b[id]);
      var p := a[id].path + "%";
      assert (set k | k in a && Like(a[k].path, p) :: a[k].depth) == (set k | k in b && Like(b[k].path, p) ::
                                                                          b[k].depth);
    }
  }

  lemma {:induction false} RewrittenReads(row: Category, node: Category, node': Category, parent: Option<Category>,
                                          parent': Option<Category>, sortOrder: Option<int>)
    requires SameShape(node, node')
    requires parent.Some? <==> parent'.Some?
    requires parent.Some? ==> SameShape(parent.value, parent'.value)
    ensures Rewritten(row, node, parent, sortOrder) == Rewritten(row, node', parent', sortOrder)
  {
  }

  lemma {:induction false} MoveIsStep(cap: nat, read: Rows, t: Table, id: nat, to: Option<nat>, position: Option<nat>)
    requires Agrees(read, t.rows)
    ensures Write(cap, read, t, MoveOp(id, to, position)) == Step(cap, t, MoveOp(id, to, position))
  {
    AgreeingReads(cap, read, t.rows, id, to, position);
    if Live(read, id) && (to.Some? ==> Live(read, to.value)) && Refusal(cap, read, id, to).None? {
      var order := MoveOrder(read, id, to, position);
      var now, then_ := Rebased(t.rows, read[id], ParentRow(read, to), order), MoveRows(t.rows, id, to, order);
      forall k | k in t.rows ensures now[k] == then_[k] {
        RewrittenReads(t.rows[k], read[id], t.rows[id], ParentRow(read, to), ParentRow(t.rows, to), order);
      }
      assert now == then_;
    }
  }

  lemma {:induction false} CreateIsStep(cap: nat, read: Rows, t: Table, op: Op)
    requires Agrees(read, t.rows) && op.CreateOp?
    ensures Write(cap, read, t, op) == Step(cap, t, op)
  {
    AgreeingReads(cap, read, t.rows, 0, op.parentId, None);
  }

  lemma {:induction false} RemoveIsStep(cap: nat, read: Rows, t: Table, op: Op)
    requires Agrees(read, t.rows) && op.RemoveOp?
    ensures Write(cap, read, t, op) == Step(cap, t, op)
  {
    AgreeingReads(cap, read, t.rows, op.id, Some(op.id), None);
  }

  /** A decision taken under the lock is still current when it is written. */
  lemma {:induction false} WriteIsStep(cap: nat, read: Rows, t: Table, op: Op)
    requires Agrees(read, t.rows)
    ensures Write(cap, read, t, op) == Step(cap, t, op)
  {
    match op
    case CreateOp(_, _, _, _) => CreateIsStep(cap, read, t, op);
    case MoveOp(id, to, position) => MoveIsStep(cap, read, t, id, to, position);
    case ReorderOp(under, orderedIds) => AgreeingReads(cap, read, t.rows, 0, under, None);
    case RemoveOp(_) => RemoveIsStep(cap, read, t, op);
    case UpdateOp(_, _, _, _, _) =>
  }

  lemma {:induction false} EditAgrees(read: Rows, t: Table, id: nat, version: nat, name: Option<string>,
                                      slug: Option<string>, isActive: Option<bool>)
    requires Agrees(read, t.rows)
    ensures Agrees(read, Update(t, id, version, name, slug, isActive).table.rows)
  {
    var after := Update(t, id, version, name, slug, isActive).table.rows;
    assert after.Keys == t.rows.Keys;
    forall k | k in read ensures SameShape(read[k], after[k]) && read[k].sortOrder == after[k].sortOrder
               && read[k].deleted == after[k].deleted {
      assert SameShape(read[k], t.rows[k]);
    }
  }

  // ------------------------------------------------------ the table's own say

  /**
   * What the database demands of one row when a statement ends: both halves of the parent edge or neither, the pair
   * of them held by some row, the path and the depth that follow, and the range of the depth.
   */
  ghost predicate RowEnforced(cap: nat, rows: Rows, id: nat)
    requires id in rows
  {
    var row := rows[id];
    && row.id == id
    && (row.parentId.None? <==> row.parentPath.None?)
    && (row.parentId.Some? ==> row.parentId.value in rows && row.parentPath == Some(rows[row.parentId.value].path))
    && row.path == PathOf(row.parentPath, id)
    && row.depth == Depth(row.path)
    && 1 <= row.depth <= cap
  }

  ghost predicate Enforced(cap: nat, rows: Rows) {
    forall id {:trigger RowEnforced(cap, rows, id)} :: id in rows ==> RowEnforced(cap, rows, id)
  }

  /** The constraints say all of it but one thing: that a live row hangs under a live one is for the writes to keep. */
  lemma {:induction false} EnforcedIff(cap: nat, rows: Rows)
    ensures WellFormed(cap, rows) <==> Enforced(cap, rows) && LiveUnderLive(rows)
  {
    if Enforced(cap, rows) && LiveUnderLive(rows) {
      forall id | id in rows ensures RowValid(cap, rows, id) { assert RowEnforced(cap, rows, id); }
    }
    if WellFormed(cap, rows) {
      forall id | id in rows ensures RowEnforced(cap, rows, id) { assert RowValid(cap, rows, id); }
      forall id | id in rows && rows[id].parentId.Some? && !rows[id].deleted
        ensures !rows[rows[id].parentId.value].deleted {
        assert RowValid(cap, rows, id);
      }
    }
  }

  ghost function AllRetired(rows: Rows): Rows { map id | id in rows :: rows[id].(deleted := true) }

  lemma {:induction false} SameEdges(rows: Rows, id: nat, ids: seq<nat>)
    requires LineageOf(AllRetired(rows), id, ids)
    ensures LineageOf(rows, id, ids)
  {
  }

  /** Whatever a write was decided from: what the constraints let through has no cycle and keeps to the depth cap. */
  lemma {:induction false} EnforcedAcyclic(cap: nat, rows: Rows)
    requires Enforced(cap, rows)
    ensures AcyclicWithin(cap, rows)
  {
    var retired := AllRetired(rows);
    forall id | id in retired ensures RowValid(cap, retired, id) { assert RowEnforced(cap, rows, id); }
    WellFormedAcyclic(cap, retired);
    forall id | id in rows ensures Rooted(cap, rows, id) {
      assert Rooted(cap, retired, id);
      var ids :| LineageOf(retired, id, ids) && |ids| <= cap;
      SameEdges(rows, id, ids);
    }
  }

  /**
   * The statement as the database takes it: `None` when a row it leaves breaks a constraint, and nothing is written.
   */
  ghost function Committed(cap: nat, read: Rows, t: Table, op: Op): Option<Outcome> {
    var written := Write(cap, read, t, op);
    if Enforced(cap, written.table.rows) then Some(written) else None
  }

  /** Under the lock the constraints are never what refuses a write. */
  lemma {:induction false} CommittedIsStep(cap: nat, read: Rows, t: Table, op: Op)
    requires Agrees(read, t.rows) && Inv(cap, t)
    ensures Committed(cap, read, t, op) == Some(Step(cap, t, op)) && Inv(cap, Step(cap, t, op).table)
  {
    WriteIsStep(cap, read, t, op);
    StepKeeps(cap, t, op);
    EnforcedIff(cap, Step(cap, t, op).table.rows);
  }

  // -------------------------------------------------------- the interleaving

  /** `Refused`: the database would not take the statement. */
  datatype Phase = Waiting | Holding | HasRead(rows: Rows) | Finished(error: Option<CategoryError>) | Refused

  /** Structural jobs with their progress, the lock's holder, the table, and the writes committed so far. */
  datatype System = System(table: Table, jobs: seq<Op>, phase: seq<Phase>, holder: Option<nat>, log: seq<Op>)

  datatype Action =
    | Acquire(job: nat)
    | Read(job: nat)
    | Commit(job: nat)
    | Edit(id: nat, version: nat, name: Option<string>, slug: Option<string>, isActive: Option<bool>)

  /** One action; one that is not possible now leaves the system waiting as it is. */
  ghost function Act(cap: nat, s: System, a: Action): System
    requires |s.phase| == |s.jobs|
  {
    match a
    case Acquire(j) =>
      if j < |s.jobs| && s.phase[j].Waiting? && s.holder.None?
      then s.(phase := s.phase[j := Holding], holder := Some(j)) else s
    case Read(j) =>
      if j < |s.jobs| && s.phase[j].Holding? then s.(phase := s.phase[j := HasRead(s.table.rows)]) else s
    case Commit(j) =>
      if j < |s.jobs| && s.phase[j].HasRead? then
        match Committed(cap, s.phase[j].rows, s.table, s.jobs[j])
        case None => s.(phase := s.phase[j := Refused], holder := None)
        case Some(written) =>
          s.(table := written.table, phase := s.phase[j := Finished(written.error)], holder := None,
             log := s.log + [s.jobs[j]])
      else s
    case Edit(id, version, name, slug, isActive) =>
      s.(table := Update(s.table, id, version, name, slug, isActive).table,
      log := s.log + [UpdateOp(id, version, name, slug, isActive)])
  }

  ghost predicate Serial(cap: nat, start: Table, s: System) {
    && |s.phase| == |s.jobs|
    && (forall j :: 0 <= j < |s.jobs| ==> (s.phase[j].Holding? || s.phase[j].HasRead? <==> s.holder == Some(j)))
    && (forall j :: 0 <= j < |s.jobs| && s.phase[j].HasRead? ==> Agrees(s.phase[j].rows, s.table.rows))
    && (forall j :: 0 <= j < |s.jobs| ==> !s.phase[j].Refused?)
    && s.table == Run(cap, start, s.log) && Inv(cap, s.table)
  }

  lemma {:induction false} RunSnoc(cap: nat, t: Table, ops: seq<Op>, op: Op)
    ensures Run(cap, t, ops + [op]) == Step(cap, Run(cap, t, ops), op).table
    decreases |ops|
  {
    if ops == [] {
      assert [] + [op] == [op];
    } else {
      assert (ops + [op])[1..] == ops[1..] + [op];
      RunSnoc(cap, Step(cap, t, ops[0]).table, ops[1..], op);
    }
  }

  lemma {:induction false} CommitKeepsSerial(cap: nat, start: Table, s: System, j: nat)
    requires Serial(cap, start, s) && j < |s.jobs| && s.phase[j].HasRead?
    ensures Serial(cap, start, Act(cap, s, Commit(j)))
  {
    CommittedIsStep(cap, s.phase[j].rows, s.table, s.jobs[j]);
    RunSnoc(cap, start, s.log, s.jobs[j]);
  }

  lemma {:induction false} EditKeepsSerial(cap: nat, start: Table, s: System, a: Action)
    requires Serial(cap, start, s) && a.Edit?
    ensures Serial(cap, start, Act(cap, s, a))
  {
    var op := UpdateOp(a.id, a.version, a.name, a.slug, a.isActive);
    var after := Act(cap, s, a);
    RunSnoc(cap, start, s.log, op);
    StepKeeps(cap, s.table, op);
    forall j | 0 <= j < |s.jobs| && s.phase[j].HasRead? ensures Agrees(s.phase[j].rows, after.table.rows) {
      EditAgrees(s.phase[j].rows, s.table, a.id, a.version, a.name, a.slug, a.isActive);
    }
  }

  lemma {:induction false} ActKeepsSerial(cap: nat, start: Table, s: System, a: Action)
    requires Serial(cap, start, s)
    ensures Serial(cap, start, Act(cap, s, a))
  {
    match a
    case Acquire(j) =>
    case Read(j) =>
    case Commit(j) => if j < |s.jobs| && s.phase[j].HasRead? { CommitKeepsSerial(cap, start, s, j); }
    case Edit(_, _, _, _, _) => EditKeepsSerial(cap, start, s, a);
  }

  ghost function Execute(cap: nat, s: System, actions: seq<Action>): (r: System)
    requires |s.phase| == |s.jobs|
    ensures |r.phase| == |r.jobs|
    decreases |actions|
  {
    if actions == [] then s else Execute(cap, Act(cap, s, actions[0]), actions[1..])
  }

  ghost function Begin(start: Table, jobs: seq<Op>): System {
    System(start, jobs, seq(|jobs|, _ => Waiting), None, [])
  }

  lemma {:induction false} ExecuteKeepsSerial(cap: nat, start: Table, s: System, actions: seq<Action>)
    requires Serial(cap, start, s)
    ensures Serial(cap, start, Execute(cap, s, actions))
    decreases |actions|
  {
    if actions != [] {
      ActKeepsSerial(cap, start, s, actions[0]);
      ExecuteKeepsSerial(cap, start, Act(cap, s, actions[0]), actions[1..]);
    }
  }

  /**
   * Under every interleaving of locked writes and unlocked edits the table equals the serial run of the
   * committed writes in commit order, and is therefore a well-formed forest at every moment; the constraints
   * refuse no statement.
   */
  lemma {:induction false} Serializable(cap: nat, start: Table, jobs: seq<Op>, actions: seq<Action>)
    requires Inv(cap, start)
    ensures var s := Execute(cap, Begin(start, jobs), actions);
            && s.table == Run(cap, start, s.log)
            && Inv(cap, s.table)
            && Forest(cap, s.table.rows)
            && (forall j :: 0 <= j < |s.phase| ==> !s.phase[j].Refused?)
  {
    ExecuteKeepsSerial(cap, start, Begin(start, jobs), actions);
    RunKeepsForest(cap, start, Execute(cap, Begin(start, jobs), actions).log);
  }

  // ------------------------------------------------------- without the lock

  /**
   * Two moves decided from one snapshot, each into the other's node, are both accepted by their checks. The first
   * statement stands. The second would close a cycle, and breaks the foreign key on parent and parent path: the row
   * `b` would name a path that `a` no longer has. So the database refuses it.
   */
  lemma {:induction false} StaleMovesCycle(cap: nat, read: Rows, a: nat, b: nat)
    requires cap >= 2 && WellFormed(cap, read) && a != b && Live(read, a) && Live(read, b)
    requires read[a].parentId.None? && read[b].parentId.None?
    requires Refusal(cap, read, a, Some(b)).None? && Refusal(cap, read, b, Some(a)).None?
    ensures var t := Table(read, 0);
            var first := Write(cap, read, t, MoveOp(a, Some(b), None));
            var second := Write(cap, read, first.table, MoveOp(b, Some(a), None));
            && first.error.None? && second.error.None?
            && !AcyclicWithin(cap, second.table.rows)
            && Committed(cap, read, t, MoveOp(a, Some(b), None)) == Some(first)
            && Committed(cap, read, first.table, MoveOp(b, Some(a), None)) == None
            && b in second.table.rows && a in second.table.rows
            && second.table.rows[b].parentId == Some(a)
            && second.table.rows[b].parentPath != Some(second.table.rows[a].path)
  {
    var t := Table(read, 0);
    var first := Write(cap, read, t, MoveOp(a, Some(b), None));
    var second := Write(cap, read, first.table, MoveOp(b, Some(a), None));
    StaleMovesMade(cap, read, a, b, first.table.rows, second.table.rows);
    CrossedEdges(cap, second.table.rows, a, b);
    FirstMoveStands(cap, read, a, b);
    if Enforced(cap, second.table.rows) { EnforcedAcyclic(cap, second.table.rows); }
  }

  lemma {:induction false} FirstMoveStands(cap: nat, read: Rows, a: nat, b: nat)
    requires WellFormed(cap, read) && Live(read, a) && Live(read, b) && Refusal(cap, read, a, Some(b)).None?
    ensures Enforced(cap, Write(cap, read, Table(read, 0), MoveOp(a, Some(b), None)).table.rows)
  {
    var order := MoveOrder(read, a, Some(b), None);
    MoveIsStep(cap, read, Table(read, 0), a, Some(b), None);
    MoveRecomputes(cap, read, a, Some(b), order);
    EnforcedIff(cap, MoveRows(read, a, Some(b), order));
  }

  lemma {:induction false} StaleMovesMade(cap: nat, read: Rows, a: nat, b: nat, once: Rows, twice: Rows)
    requires WellFormed(cap, read) && a != b && Live(read, a) && Live(read, b)
    requires read[a].parentId.None? && read[b].parentId.None?
    requires Refusal(cap, read, a, Some(b)).None? && Refusal(cap, read, b, Some(a)).None?
    requires once == Rebased(read, read[a], Some(read[b]), MoveOrder(read, a, Some(b), None))
    requires twice == Rebased(once, read[b], Some(read[a]), MoveOrder(read, b, Some(a), None))
    ensures a in twice && b in twice && twice[a].parentId == Some(b) && twice[b].parentId == Some(a)
    ensures twice[b].parentPath == Some(read[a].path) && |twice[a].path| > |read[a].path|
  {
    assert RowValid(cap, read, a) && RowValid(cap, read, b);
    SubtreeQuery(cap, read, a, a);
    SubtreeQuery(cap, read, b, b);
    SubtreeQuery(cap, read, a, b);
    SubtreeQuery(cap, read, b, a);
    assert once[b] == read[b] && once[a].parentId == Some(b);
    assert |once[a].path| > |read[a].path|;
    assert twice[b].parentId == Some(a) && twice[b].parentPath == Some(read[a].path);
    assert twice[a].parentId == Some(b);
    assert |twice[a].path| >= |once[a].path|;
  }

  lemma {:induction false} CrossedEdges(cap: nat, rows: Rows, a: nat, b: nat)
    requires a in rows && b in rows && rows[a].parentId == Some(b) && rows[b].parentId == Some(a)
    ensures !AcyclicWithin(cap, rows)
  {
    forall ids ensures !LineageOf(rows, a, ids) { MutualParents(rows, a, b, ids); }
    assert !Rooted(cap, rows, a);
  }

  /**
   * What only the lock prevents: a creation decided from a snapshot in which the parent was live, written after that
   * parent was removed. The database takes both, and a live category hangs under a retired one.
   */
  lemma {:induction false} StaleCreateOrphans(cap: nat, t: Table, p: nat, name: string, slug: string)
    requires Inv(cap, t) && Live(t.rows, p) && Children(t.rows, Some(p)) == {} && t.rows[p].depth < cap
    requires SlugFree(t.rows, slug, None)
    ensures var removed := Committed(cap, t.rows, t, RemoveOp(p));
            && removed.Some? && removed.value.error.None?
            && var created := Committed(cap, t.rows, removed.value.table, CreateOp(Some(p), name, slug, None));
               && created.Some? && created.value.error.None?
               && Enforced(cap, created.value.table.rows) && !WellFormed(cap, created.value.table.rows)
  {
    var removed := Write(cap, t.rows, t, RemoveOp(p));
    CommittedIsStep(cap, t.rows, t, RemoveOp(p));
    var op := CreateOp(Some(p), name, slug, None);
    assert SlugFree(removed.table.rows, slug, None);
    var created := Write(cap, t.rows, removed.table, op);
    CommittedIsStep(cap, t.rows, t, op);
    var rows, proper := created.table.rows, Step(cap, t, op).table.rows;
    EnforcedIff(cap, proper);
    forall id | id in rows ensures RowEnforced(cap, rows, id) {
      assert id in proper && RowEnforced(cap, proper, id);
      assert SameShape(rows[id], proper[id]);
    }
    assert !LiveUnderLive(rows) by {
      assert rows[t.next].parentId == Some(p) && !rows[t.next].deleted && rows[p].deleted;
    }
    EnforcedIff(cap, rows);
  }

  lemma {:induction false} MutualParents(rows: Rows, a: nat, b: nat, ids: seq<nat>)
    requires a in rows && b in rows && rows[a].parentId == Some(b) && rows[b].parentId == Some(a)
    ensures !LineageOf(rows, a, ids)
    decreases |ids|
  {
    if LineageOf(rows, a, ids) {
      RootLineage(rows, a, ids);
      MutualParents(rows, b, a, ids[..|ids| - 1]);
    }
  }
}
