/** The listing query over the category table, and what the nested answer built from its rows shows. */
module CategoryListing {
  import opened Prelude
  import opened SearchPattern
  import opened CategoryTree
  import opened CategoryForest

  function NodeOf(row: Category): Node { Node(row.id, row.parentId, row.name, row.depth, row.sortOrder) }

  /** A category the caller may see: not retired, and active unless inactive ones are asked for too. */
  predicate Shown(rows: Rows, inactiveToo: bool, id: nat) {
    id in rows && !rows[id].deleted && (inactiveToo || rows[id].isActive)
  }

  /** The query's condition on a row; below a root that is not shown nothing is found. */
  predicate Selected(rows: Rows, rootId: Option<nat>, inactiveToo: bool, id: nat) {
    && Shown(rows, inactiveToo, id)
    && (rootId.Some? ==> Shown(rows, inactiveToo, rootId.value) && Like(rows[id].path, rows[rootId.value].path + "%"))
  }

  /** The query's order: depth, then position, then id. */
  predicate Before(a: Node, b: Node) {
    || a.depth < b.depth
    || (a.depth == b.depth && (a.sortOrder < b.sortOrder || (a.sortOrder == b.sortOrder && a.id < b.id)))
  }

  ghost predicate IsAnswer(rows: Rows, rootId: Option<nat>, inactiveToo: bool, answer: seq<Node>) {
    && (forall i, j :: 0 <= i < j < |answer| ==> Before(answer[i], answer[j]))
    && (forall n :: n in answer <==> Selected(rows, rootId, inactiveToo, n.id) && n == NodeOf(rows[n.id]))
  }

  // ------------------------------------------------------ what the builder asks

  lemma {:induction false} LineageStep(cap: nat, rows: Rows, id: nat)
    requires WellFormed(cap, rows) && id in rows
    ensures rows[id].parentId.Some? ==> rows[id].parentId.value in rows
    ensures Lineage(cap, rows, id)
         == (if rows[id].parentId.None? then [] else Lineage(cap, rows, rows[id].parentId.value)) + [id]
  {
    var ids := Lineage(cap, rows, id);
    RootLineage(rows, id, ids);
    var up := ids[..|ids| - 1];
    assert ids == up + [id];
    if rows[id].parentId.Some? {
      LineageUnique(rows, rows[id].parentId.value, up, Lineage(cap, rows, rows[id].parentId.value));
    }
  }

  /** The rows of a well-formed table, in the query's order, are what the forest is built from. */
  lemma {:induction false} AnswerArrives(cap: nat, rows: Rows, rootId: Option<nat>, inactiveToo: bool,
                                         answer: seq<Node>)
    requires WellFormed(cap, rows) && IsAnswer(rows, rootId, inactiveToo, answer)
    ensures Arrives(answer)
  {
    forall i, j | 0 <= i < j < |answer| ensures answer[i].id != answer[j].id && answer[i].depth <= answer[j].depth {
      assert answer[i] in answer && answer[j] in answer && Before(answer[i], answer[j]);
    }
    forall i, j | 0 <= i < |answer| && 0 <= j < |answer| && answer[j].parentId == Some(answer[i].id)
      ensures answer[j].depth == answer[i].depth + 1
    {
      assert answer[i] in answer && answer[j] in answer;
      LineageStep(cap, rows, answer[j].id);
    }
  }

  // ------------------------------------------------------- what comes back

  /** At or below the root asked for, with every category from there down to it shown. */
  ghost predicate Visible(cap: nat, rows: Rows, rootId: Option<nat>, inactiveToo: bool, id: nat)
    requires WellFormed(cap, rows)
  {
    && id in rows
    && (rootId.Some? ==> rootId.value in rows && AtOrBelow(cap, rows, id, rootId.value))
    && forall a | a in Lineage(cap, rows, id)
                  && (rootId.Some? ==> a in rows && AtOrBelow(cap, rows, a, rootId.value)) ::
         Shown(rows, inactiveToo, a)
  }

  lemma {:induction false} OnlyItself(cap: nat, rows: Rows, a: nat, b: nat)
    requires WellFormed(cap, rows) && a in rows && b in rows && AtOrBelow(cap, rows, a, b) && AtOrBelow(cap, rows, b, a)
    ensures a == b
  {
    LineagePrefix(cap, rows, a, b);
    LineagePrefix(cap, rows, b, a);
  }

  ghost predicate AtTop(rows: Rows, rootId: Option<nat>, id: nat)
    requires id in rows
  {
    IsTop(NodeOf(rows[id]), rootId)
  }

  lemma {:induction false} SelectedBelow(cap: nat, rows: Rows, rootId: Option<nat>, inactiveToo: bool, id: nat)
    requires WellFormed(cap, rows) && id in rows
    ensures Selected(rows, rootId, inactiveToo, id)
       <==> && Shown(rows, inactiveToo, id)
            && (rootId.Some? ==> Shown(rows, inactiveToo, rootId.value) && AtOrBelow(cap, rows, id, rootId.value))
  {
    if rootId.Some? && rootId.value in rows { SubtreeQuery(cap, rows, id, rootId.value); }
  }

  lemma {:induction false} VisibleTop(cap: nat, rows: Rows, rootId: Option<nat>, inactiveToo: bool, id: nat)
    requires WellFormed(cap, rows) && id in rows && AtTop(rows, rootId, id)
    ensures Visible(cap, rows, rootId, inactiveToo, id) <==> Selected(rows, rootId, inactiveToo, id)
  {
    SelectedBelow(cap, rows, rootId, inactiveToo, id);
    LineageStep(cap, rows, id);
    assert RowValid(cap, rows, id);
    if rootId.Some? {
      forall a | a in Lineage(cap, rows, id) && a in rows && AtOrBelow(cap, rows, a, id) ensures a == id {
        OnlyItself(cap, rows, a, id);
      }
    }
  }

  lemma {:induction false} BelowParent(cap: nat, rows: Rows, rootId: Option<nat>, id: nat)
    requires WellFormed(cap, rows) && id in rows && !AtTop(rows, rootId, id)
    requires rootId.Some? ==> rootId.value in rows && AtOrBelow(cap, rows, id, rootId.value)
    ensures rows[id].parentId.Some? && rows[id].parentId.value in rows
    ensures rootId.Some? ==> AtOrBelow(cap, rows, rows[id].parentId.value, rootId.value)
  {
    LineageStep(cap, rows, id);
    assert RowValid(cap, rows, id);
  }

  lemma {:induction false} VisibleParent(cap: nat, rows: Rows, rootId: Option<nat>, inactiveToo: bool, id: nat)
    requires WellFormed(cap, rows) && !(id in rows && AtTop(rows, rootId, id))
    requires Visible(cap, rows, rootId, inactiveToo, id)
    ensures Selected(rows, rootId, inactiveToo, id)
    ensures rows[id].parentId.Some? && Visible(cap, rows, rootId, inactiveToo, rows[id].parentId.value)
  {
    SelectedBelow(cap, rows, rootId, inactiveToo, id);
    BelowParent(cap, rows, rootId, id);
    LineageStep(cap, rows, id);
    if rootId.Some? { LineageStep(cap, rows, rootId.value); }
  }

  /** Below the top, a row is visible exactly when it is selected and its parent is visible. */
  lemma {:induction false} VisibleBelow(cap: nat, rows: Rows, rootId: Option<nat>, inactiveToo: bool, id: nat)
    requires WellFormed(cap, rows) && id in rows && !AtTop(rows, rootId, id)
    ensures Visible(cap, rows, rootId, inactiveToo, id)
       <==> && Selected(rows, rootId, inactiveToo, id)
            && rows[id].parentId.Some? && Visible(cap, rows, rootId, inactiveToo, rows[id].parentId.value)
  {
    if Visible(cap, rows, rootId, inactiveToo, id) {
      VisibleParent(cap, rows, rootId, inactiveToo, id);
    } else if Selected(rows, rootId, inactiveToo, id) {
      SelectedBelow(cap, rows, rootId, inactiveToo, id);
      LineageStep(cap, rows, id);
    }
  }

  lemma {:induction false} KeptStep(answer: seq<Node>, rootId: Option<nat>, k: nat)
    requires k < |answer|
    ensures Kept(answer, rootId, k)
       <==> IsTop(answer[k], rootId) || exists p :: 0 <= p < |answer| && Link(answer, rootId, p, k)
                                                    && Kept(answer, rootId, p)
  {
    if IsTop(answer[k], rootId) { assert ChainTo(answer, rootId, [k], k); }
    if p :| 0 <= p < |answer| && Link(answer, rootId, p, k) && Kept(answer, rootId, p) {
      var chain :| ChainTo(answer, rootId, chain, p);
      assert ChainTo(answer, rootId, chain + [k], k);
    }
    if chain :| ChainTo(answer, rootId, chain, k) {
      var n := |chain| - 1;
      if n > 0 {
        assert ChainTo(answer, rootId, chain[..n], chain[n - 1]);
        assert Link(answer, rootId, chain[n - 1], k);
      }
    }
  }

  lemma {:induction false} PlaceOf(rows: Rows, rootId: Option<nat>, inactiveToo: bool, answer: seq<Node>, id: nat)
    returns (k: nat)
    requires IsAnswer(rows, rootId, inactiveToo, answer) && Selected(rows, rootId, inactiveToo, id) && rows[id].id == id
    ensures k < |answer| && answer[k] == NodeOf(rows[id])
  {
    assert NodeOf(rows[id]) in answer;
    k :| 0 <= k < |answer| && answer[k] == NodeOf(rows[id]);
  }

  lemma {:induction false} KeptIsVisible(cap: nat, rows: Rows, rootId: Option<nat>, inactiveToo: bool,
                                         answer: seq<Node>, k: nat)
    requires WellFormed(cap, rows) && IsAnswer(rows, rootId, inactiveToo, answer) && k < |answer|
    ensures answer[k].id in rows
    ensures Kept(answer, rootId, k) <==> Visible(cap, rows, rootId, inactiveToo, answer[k].id)
    decreases k, 1
  {
    var id := answer[k].id;
    assert answer[k] in answer;
    assert RowValid(cap, rows, id);
    AnswerArrives(cap, rows, rootId, inactiveToo, answer);
    KeptStep(answer, rootId, k);
    if IsTop(answer[k], rootId) {
      VisibleTop(cap, rows, rootId, inactiveToo, id);
    } else {
      VisibleBelow(cap, rows, rootId, inactiveToo, id);
      ParentKept(cap, rows, rootId, inactiveToo, answer, k);
    }
  }

  lemma {:induction false} ParentKept(cap: nat, rows: Rows, rootId: Option<nat>, inactiveToo: bool, answer: seq<Node>,
                                      k: nat)
    requires WellFormed(cap, rows) && IsAnswer(rows, rootId, inactiveToo, answer) && Arrives(answer)
    requires k < |answer| && !IsTop(answer[k], rootId)
    ensures (exists p :: 0 <= p < |answer| && Link(answer, rootId, p, k) && Kept(answer, rootId, p))
       <==> answer[k].parentId.Some? && Visible(cap, rows, rootId, inactiveToo, answer[k].parentId.value)
    decreases k, 0
  {
    assert answer[k] in answer;
    if p :| 0 <= p < |answer| && Link(answer, rootId, p, k) && Kept(answer, rootId, p) {
      ParentEarlier(answer, rootId, p, k);
      KeptIsVisible(cap, rows, rootId, inactiveToo, answer, p);
    }
    if answer[k].parentId.Some? && Visible(cap, rows, rootId, inactiveToo, answer[k].parentId.value) {
      var parent := answer[k].parentId.value;
      assert RowValid(cap, rows, parent);
      if AtTop(rows, rootId, parent) { VisibleTop(cap, rows, rootId, inactiveToo, parent); }
      else { VisibleBelow(cap, rows, rootId, inactiveToo, parent); }
      var p := PlaceOf(rows, rootId, inactiveToo, answer, parent);
      ParentEarlier(answer, rootId, p, k);
      KeptIsVisible(cap, rows, rootId, inactiveToo, answer, p);
    }
  }

  /** The nested answer shows exactly the categories with nothing hidden between the root asked for and themselves. */
  lemma {:induction false} ListingShows(cap: nat, rows: Rows, rootId: Option<nat>, inactiveToo: bool, answer: seq<Node>,
                                        id: nat)
    requires WellFormed(cap, rows) && IsAnswer(rows, rootId, inactiveToo, answer) && id in rows
    ensures NodeOf(rows[id]) in Listed(answer, rootId) <==> Visible(cap, rows, rootId, inactiveToo, id)
  {
    AnswerArrives(cap, rows, rootId, inactiveToo, answer);
    FlattenIsKept(answer, rootId);
    assert RowValid(cap, rows, id);
    if AtTop(rows, rootId, id) { VisibleTop(cap, rows, rootId, inactiveToo, id); }
    else { VisibleBelow(cap, rows, rootId, inactiveToo, id); }
    if Selected(rows, rootId, inactiveToo, id) {
      var k := PlaceOf(rows, rootId, inactiveToo, answer, id);
      KeptIsVisible(cap, rows, rootId, inactiveToo, answer, k);
    }
  }

  /** Nothing is found below a root, which is answered as an error, exactly when the root itself is not shown. */
  lemma {:induction false} NothingFoundIff(cap: nat, rows: Rows, root: nat, inactiveToo: bool, answer: seq<Node>)
    requires WellFormed(cap, rows) && IsAnswer(rows, Some(root), inactiveToo, answer)
    ensures answer == [] <==> !Shown(rows, inactiveToo, root)
  {
    if Shown(rows, inactiveToo, root) {
      SelectedBelow(cap, rows, Some(root), inactiveToo, root);
      assert RowValid(cap, rows, root);
      var k := PlaceOf(rows, Some(root), inactiveToo, answer, root);
    }
    assert answer != [] ==> answer[0] in answer;
  }

  /** In the nested answer the children of one category come by position, and by id where that is the same. */
  lemma {:induction false} SiblingsByPosition(cap: nat, rows: Rows, rootId: Option<nat>, inactiveToo: bool,
                                              answer: seq<Node>,
                                              p: nat, a: nat, b: nat)
    requires WellFormed(cap, rows) && IsAnswer(rows, rootId, inactiveToo, answer)
    requires p < |answer| && a < |answer| && b < |answer| && Kept(answer, rootId, p)
    requires Link(answer, rootId, p, a) && Link(answer, rootId, p, b)
    requires answer[a].sortOrder < answer[b].sortOrder
          || (answer[a].sortOrder == answer[b].sortOrder && answer[a].id < answer[b].id)
    ensures CategoryForest.Before(Listed(answer, rootId), answer[a], answer[b])
  {
    AnswerArrives(cap, rows, rootId, inactiveToo, answer);
    assert a != b && Before(answer[Min(a, b)], answer[Max(a, b)]);
    FlattenSiblingsInOrder(answer, rootId, p, a, b);
  }

  /** What is listed carries its row's own name, parent, depth and position. */
  lemma {:induction false} ListingCarries(cap: nat, rows: Rows, rootId: Option<nat>, inactiveToo: bool,
                                          answer: seq<Node>, n: Node)
    requires WellFormed(cap, rows) && IsAnswer(rows, rootId, inactiveToo, answer) && n in Listed(answer, rootId)
    ensures n.id in rows && var row := rows[n.id];
                            && n.name == row.name && n.parentId == row.parentId && n.depth == row.depth
                            && n.sortOrder == row.sortOrder
  {
    AnswerArrives(cap, rows, rootId, inactiveToo, answer);
    FlattenIsKept(answer, rootId);
    assert n in answer;
  }
}
