/** The loop that nests the rows: shared child lists, filled in place through an index by id. */
module CategoryNesting {
  import opened Prelude
  import opened CategoryForest

  class TreeNode {
    const row: Node
    var children: seq<TreeNode>

    constructor (row: Node)
      ensures this.row == row && children == []
    {
      this.row := row;
      children := [];
    }
  }

  /** The objects at and below `n`, all among `repr`, spell the tree `t`. */
  ghost predicate Represents(n: TreeNode, t: Tree, repr: set<TreeNode>)
    reads repr
    decreases t
  {
    && n in repr
    && n.row == t.row
    && |n.children| == |t.children|
    && forall i :: 0 <= i < |t.children| ==> Represents(n.children[i], t.children[i], repr)
  }

  ghost predicate RepresentsAll(ns: seq<TreeNode>, ts: seq<Tree>, repr: set<TreeNode>)
    reads repr
  {
    |ns| == |ts| && forall i :: 0 <= i < |ns| ==> Represents(ns[i], ts[i], repr)
  }

  ghost predicate Within(ks: seq<nat>, n: nat) { forall i :: 0 <= i < |ks| ==> ks[i] < n }

  ghost function NodesAt(at: seq<TreeNode>, ks: seq<nat>): (ns: seq<TreeNode>)
    requires Within(ks, |at|)
    ensures |ns| == |ks|
  {
    seq(|ks|, i requires 0 <= i < |ks| => at[ks[i]])
  }

  lemma {:induction false} NodesAtLonger(at: seq<TreeNode>, node: TreeNode, ks: seq<nat>)
    requires Within(ks, |at|)
    ensures NodesAt(at + [node], ks) == NodesAt(at, ks)
    ensures Within(ks + [|at|], |at| + 1) && NodesAt(at + [node], ks + [|at|]) == NodesAt(at, ks) + [node]
  {
  }

  // ------------------------------------------------------- the loop's invariant

  /** The index knows the objects of exactly the kept rows. */
  ghost predicate Indexed(rows: seq<Node>, rootId: Option<nat>, i: nat, at: seq<TreeNode>, index: map<nat, TreeNode>)
    requires i == |at| <= |rows|
  {
    IndexedAs(rows, KeptRows(rows, rootId), i, at, index)
  }

  ghost function KeptRows(rows: seq<Node>, rootId: Option<nat>): set<nat> {
    set k | 0 <= k < |rows| && Kept(rows, rootId, k)
  }

  ghost predicate IndexedAs(rows: seq<Node>, kept: set<nat>, i: nat, at: seq<TreeNode>, index: map<nat, TreeNode>)
    requires i == |at| <= |rows|
  {
    && (forall k :: 0 <= k < i ==> (rows[k].id in index <==> k in kept))
    && (forall k :: 0 <= k < i && rows[k].id in index ==> index[rows[k].id] == at[k])
    && (forall id :: id in index ==> HasRow(rows, i, id))
  }

  ghost predicate HasRow(rows: seq<Node>, i: nat, id: nat)
    requires i <= |rows|
  {
    exists k :: 0 <= k < i && rows[k].id == id
  }

  /** Every kept row's object lists, in order, the objects of its children so far. */
  ghost predicate Filled(rows: seq<Node>, rootId: Option<nat>, i: nat, at: seq<TreeNode>, k: nat)
    requires k < i == |at| <= |rows|
    reads at
  {
    Kept(rows, rootId, k) ==> at[k].children == NodesAt(at, Kids(rows, rootId, k, i))
  }

  ghost predicate AllFilled(rows: seq<Node>, rootId: Option<nat>, i: nat, at: seq<TreeNode>)
    requires i == |at| <= |rows|
    reads at
  {
    forall k {:trigger Filled(rows, rootId, i, at, k)} :: 0 <= k < i ==> Filled(rows, rootId, i, at, k)
  }

  /** One object per row, no object twice. */
  ghost predicate Carries(rows: seq<Node>, at: seq<TreeNode>) {
    Distinct(at) && |at| <= |rows| && forall k :: 0 <= k < |at| ==> at[k].row == rows[k]
  }

  ghost predicate Nested(rows: seq<Node>, rootId: Option<nat>, i: nat, at: seq<TreeNode>, index: map<nat, TreeNode>,
                         forest: seq<TreeNode>)
    requires i <= |rows|
    reads at
  {
    && |at| == i && Carries(rows, at)
    && Indexed(rows, rootId, i, at, index)
    && AllFilled(rows, rootId, i, at)
    && forest == NodesAt(at, Tops(rows, rootId, i))
  }

  // --------------------------------------------------------- keeping it

  lemma {:induction false} KeptParent(rows: seq<Node>, rootId: Option<nat>, p: nat, c: nat)
    requires Arrives(rows) && p < |rows| && c < |rows| && Link(rows, rootId, p, c)
    ensures Kept(rows, rootId, c) <==> Kept(rows, rootId, p)
  {
    if chain :| ChainTo(rows, rootId, chain, p) {
      assert ChainTo(rows, rootId, chain + [c], c);
    }
    if chain :| ChainTo(rows, rootId, chain, c) {
      var n := |chain| - 1;
      assert n > 0;
      assert Link(rows, rootId, chain[n - 1], c);
      assert rows[chain[n - 1]].id == rows[p].id;
      assert chain[n - 1] == p;
      assert ChainTo(rows, rootId, chain[..n], p);
    }
  }

  lemma {:induction false} KeptTop(rows: seq<Node>, rootId: Option<nat>, c: nat)
    requires c < |rows| && IsTop(rows[c], rootId)
    ensures Kept(rows, rootId, c)
  {
    assert ChainTo(rows, rootId, [c], c);
  }

  lemma {:induction false} KeptHasParent(rows: seq<Node>, rootId: Option<nat>, c: nat) returns (p: nat)
    requires Arrives(rows) && c < |rows| && !IsTop(rows[c], rootId) && Kept(rows, rootId, c)
    ensures p < c && Link(rows, rootId, p, c) && Kept(rows, rootId, p)
  {
    var chain :| ChainTo(rows, rootId, chain, c);
    var n := |chain| - 1;
    assert n > 0;
    p := chain[n - 1];
    assert Link(rows, rootId, p, c);
    ParentEarlier(rows, rootId, p, c);
    KeptParent(rows, rootId, p, c);
  }

  lemma {:induction false} NewId(rows: seq<Node>, i: nat)
    requires Arrives(rows) && i < |rows|
    ensures !HasRow(rows, i, rows[i].id)
  {
  }

  /** The next row is kept exactly when it is a top or its parent is in the index. */
  lemma {:induction false} NextKept(rows: seq<Node>, rootId: Option<nat>, i: nat, at: seq<TreeNode>,
                                    index: map<nat, TreeNode>)
    requires Arrives(rows) && i < |rows| && |at| == i && Indexed(rows, rootId, i, at, index)
    ensures rows[i].id !in index
    ensures Kept(rows, rootId, i)
       <==> IsTop(rows[i], rootId) || (rows[i].parentId.Some? && rows[i].parentId.value in index)
  {
    NewId(rows, i);
    if IsTop(rows[i], rootId) {
      KeptTop(rows, rootId, i);
    } else {
      if rows[i].parentId.Some? && rows[i].parentId.value in index {
        assert HasRow(rows, i, rows[i].parentId.value);
        var p :| 0 <= p < i && rows[p].id == rows[i].parentId.value;
        KeptParent(rows, rootId, p, i);
      }
      if Kept(rows, rootId, i) {
        var p := KeptHasParent(rows, rootId, i);
      }
    }
  }

  lemma {:induction false} HasRowLonger(rows: seq<Node>, i: nat, id: nat)
    requires i < |rows| && HasRow(rows, i, id)
    ensures HasRow(rows, i + 1, id)
  {
    var k :| 0 <= k < i && rows[k].id == id;
  }

  lemma {:induction false} IndexGrows(rows: seq<Node>, kept: set<nat>, i: nat, at: seq<TreeNode>,
                                      index: map<nat, TreeNode>, node: TreeNode)
    requires i < |rows| && |at| == i && IndexedAs(rows, kept, i, at, index) && rows[i].id !in index
    requires forall k :: 0 <= k < i ==> rows[k].id != rows[i].id
    ensures IndexedAs(rows, kept, i + 1, at + [node], if i in kept then index[rows[i].id := node] else index)
  {
    forall id | id in index ensures HasRow(rows, i + 1, id) { HasRowLonger(rows, i, id); }
    assert HasRow(rows, i + 1, rows[i].id);
  }

  lemma {:induction false} IndexNext(rows: seq<Node>, rootId: Option<nat>, i: nat, at: seq<TreeNode>,
                                     index: map<nat, TreeNode>, node: TreeNode)
    requires Arrives(rows) && i < |rows| && |at| == i && Indexed(rows, rootId, i, at, index)
    ensures Kept(rows, rootId, i) ==> Indexed(rows, rootId, i + 1, at + [node], index[rows[i].id := node])
    ensures !Kept(rows, rootId, i) ==> Indexed(rows, rootId, i + 1, at + [node], index)
  {
    NextKept(rows, rootId, i, at, index);
    IndexGrows(rows, KeptRows(rows, rootId), i, at, index, node);
  }

  /** A row that is not a child of row `k` leaves its list as it was. */
  lemma {:induction false} StillFilled(rows: seq<Node>, rootId: Option<nat>, i: nat, at: seq<TreeNode>, node: TreeNode,
                                       k: nat)
    requires i < |rows| && k < i == |at| && Filled(rows, rootId, i, at, k)
    requires Link(rows, rootId, k, i) ==> !Kept(rows, rootId, k)
    ensures Filled(rows, rootId, i + 1, at + [node], k)
  {
    if Kept(rows, rootId, k) {
      NodesAtLonger(at, node, Kids(rows, rootId, k, i));
      assert Kids(rows, rootId, k, i + 1) == Kids(rows, rootId, k, i);
    }
  }

  lemma {:induction false} TopsNext(rows: seq<Node>, rootId: Option<nat>, i: nat, at: seq<TreeNode>, node: TreeNode)
    requires i < |rows| && |at| == i
    ensures NodesAt(at + [node], Tops(rows, rootId, i + 1))
         == NodesAt(at, Tops(rows, rootId, i)) + (if IsTop(rows[i], rootId) then [node] else [])
  {
    NodesAtLonger(at, node, Tops(rows, rootId, i));
    assert Tops(rows, rootId, i + 1) == Tops(rows, rootId, i) + (if IsTop(rows[i], rootId) then [i] else []);
  }

  lemma {:induction false} AloneFilled(rows: seq<Node>, rootId: Option<nat>, i: nat, at: seq<TreeNode>, node: TreeNode,
                                       next: nat, at': seq<TreeNode>)
    requires Arrives(rows) && i < |rows| && |at| == i && AllFilled(rows, rootId, i, at)
    requires node.children == [] && (IsTop(rows[i], rootId) || !Kept(rows, rootId, i))
    requires next == i + 1 && at' == at + [node]
    ensures AllFilled(rows, rootId, next, at')
  {
    forall k | 0 <= k < next ensures Filled(rows, rootId, next, at', k) {
      if k < i {
        assert Filled(rows, rootId, i, at, k);
        if Link(rows, rootId, k, i) { KeptParent(rows, rootId, k, i); }
        StillFilled(rows, rootId, i, at, node, k);
      }
    }
  }

  lemma {:induction false} CarriesNext(rows: seq<Node>, at: seq<TreeNode>, node: TreeNode)
    requires Carries(rows, at) && |at| < |rows| && node !in at && node.row == rows[|at|]
    ensures Carries(rows, at + [node])
  {
  }

  /** A row that joins no child list: a top, or one whose parent is missing. */
  lemma {:induction false} PlaceAlone(rows: seq<Node>, rootId: Option<nat>, i: nat, at: seq<TreeNode>,
                                      index: map<nat, TreeNode>, forest: seq<TreeNode>, node: TreeNode)
    requires Arrives(rows) && i < |rows| && Nested(rows, rootId, i, at, index, forest)
    requires node !in at && node.row == rows[i] && node.children == []
    requires IsTop(rows[i], rootId) || !Kept(rows, rootId, i)
    ensures Nested(rows, rootId, i + 1, at + [node],
                   if Kept(rows, rootId, i) then index[rows[i].id := node] else index,
                   if IsTop(rows[i], rootId) then forest + [node] else forest)
  {
    IndexNext(rows, rootId, i, at, index, node);
    TopsNext(rows, rootId, i, at, node);
    CarriesNext(rows, at, node);
    AloneFilled(rows, rootId, i, at, node, i + 1, at + [node]);
    if !IsTop(rows[i], rootId) { assert forest + [] == forest; }
  }

  /** Only the parent's list is due to change. */
  lemma {:induction false} OthersStay(rows: seq<Node>, rootId: Option<nat>, i: nat, p: nat, at: seq<TreeNode>,
                                      node: TreeNode)
    requires Arrives(rows) && i < |rows| && |at| == i && Distinct(at) && AllFilled(rows, rootId, i, at)
    requires p < i && Link(rows, rootId, p, i)
    ensures forall k :: 0 <= k < i && k != p ==> at[k] != at[p] && Filled(rows, rootId, i + 1, at + [node], k)
  {
    forall k | 0 <= k < i && k != p ensures at[k] != at[p] && Filled(rows, rootId, i + 1, at + [node], k) {
      assert Filled(rows, rootId, i, at, k);
      assert rows[k].id != rows[p].id;
      StillFilled(rows, rootId, i, at, node, k);
    }
  }

  /** The parent's list, with the node pushed, is the list it must have next. */
  lemma {:induction false} ParentGains(rows: seq<Node>, rootId: Option<nat>, i: nat, p: nat, at: seq<TreeNode>,
                                       node: TreeNode)
    requires i < |rows| && |at| == i && AllFilled(rows, rootId, i, at)
    requires p < i && Kept(rows, rootId, p) && Link(rows, rootId, p, i)
    ensures at[p].children + [node] == NodesAt(at + [node], Kids(rows, rootId, p, i + 1))
  {
    assert Filled(rows, rootId, i, at, p);
    assert Kids(rows, rootId, p, i + 1) == Kids(rows, rootId, p, i) + [i];
    NodesAtLonger(at, node, Kids(rows, rootId, p, i));
  }

  /** Pushes the node of row `i` onto the child list of its kept parent, row `p`. */
  method Push(ghost rows: seq<Node>, ghost rootId: Option<nat>, ghost i: nat, ghost p: nat, ghost at: seq<TreeNode>,
              parent: TreeNode, node: TreeNode)
    requires Arrives(rows) && i < |rows| && |at| == i && Distinct(at) && AllFilled(rows, rootId, i, at)
    requires node !in at && node.children == []
    requires p < i && parent == at[p] && Kept(rows, rootId, p) && Link(rows, rootId, p, i)
    modifies parent`children
    ensures AllFilled(rows, rootId, i + 1, at + [node])
    ensures parent.children == old(parent.children) + [node]
  {
    OthersStay(rows, rootId, i, p, at, node);
    ParentGains(rows, rootId, i, p, at, node);
    ghost var next, at' := i + 1, at + [node];
    label before:
    parent.children := parent.children + [node];
    forall k | 0 <= k < next ensures Filled(rows, rootId, next, at', k) {
      if k < i && k != p {
        assert old@before(Filled(rows, rootId, next, at', k));
        assert at'[k].children == old@before(at'[k].children);
      }
    }
  }

  method PlaceUnder(ghost rows: seq<Node>, ghost rootId: Option<nat>, ghost i: nat, ghost p: nat,
                    ghost at: seq<TreeNode>,
                    ghost index: map<nat, TreeNode>, ghost forest: seq<TreeNode>, parent: TreeNode, node: TreeNode)
    requires Arrives(rows) && i < |rows| && Nested(rows, rootId, i, at, index, forest)
    requires node !in at && node.row == rows[i] && node.children == []
    requires p < i && parent == at[p] && Kept(rows, rootId, p) && Link(rows, rootId, p, i)
    modifies parent`children
    ensures Nested(rows, rootId, i + 1, at + [node], index[rows[i].id := node], forest)
    ensures parent.children == old(parent.children) + [node]
  {
    KeptParent(rows, rootId, p, i);
    IndexNext(rows, rootId, i, at, index, node);
    TopsNext(rows, rootId, i, at, node);
    CarriesNext(rows, at, node);
    assert forest + [] == forest;
    Push(rows, rootId, i, p, at, parent, node);
  }

  /** One pass of the loop: the node of row `i` joins the forest, its parent's list, or nothing. */
  method Place(rows: seq<Node>, rootId: Option<nat>, i: nat, ghost at: seq<TreeNode>,
               index: map<nat, TreeNode>, forest: seq<TreeNode>, node: TreeNode)
    returns (index': map<nat, TreeNode>, forest': seq<TreeNode>)
    requires Arrives(rows) && i < |rows| && Nested(rows, rootId, i, at, index, forest)
    requires node !in at && node.row == rows[i] && node.children == []
    modifies at
    ensures Nested(rows, rootId, i + 1, at + [node], index', forest')
  {
    NextKept(rows, rootId, i, at, index);
    index', forest' := index[rows[i].id := node], forest;
    if IsTop(rows[i], rootId) {
      PlaceAlone(rows, rootId, i, at, index, forest, node);
      forest' := forest + [node];
    } else if rows[i].parentId.Some? && rows[i].parentId.value in index {
      ghost var p := KeptHasParent(rows, rootId, i);
      PlaceUnder(rows, rootId, i, p, at, index, forest, index[rows[i].parentId.value], node);
    } else {
      PlaceAlone(rows, rootId, i, at, index, forest, node);
      index' := index' - {rows[i].id};
      assert index' == index;
    }
  }

  method PlaceRow(rows: seq<Node>, rootId: Option<nat>, i: nat, ghost at: seq<TreeNode>, index: map<nat, TreeNode>,
                  forest: seq<TreeNode>)
    returns (index': map<nat, TreeNode>, forest': seq<TreeNode>, ghost made: TreeNode)
    requires Arrives(rows) && i < |rows| && Nested(rows, rootId, i, at, index, forest)
    modifies at
    ensures fresh(made) && Nested(rows, rootId, i + 1, at + [made], index', forest')
  {
    var node := new TreeNode(rows[i]);
    made := node;
    index', forest' := Place(rows, rootId, i, at, index, forest, node);
  }

  lemma {:induction false} NestedEmpty(rows: seq<Node>, rootId: Option<nat>)
    ensures Nested(rows, rootId, 0, [], map[], [])
  {
  }

  method BuildCategoryForest(rows: seq<Node>, rootId: Option<nat>)
    returns (forest: seq<TreeNode>, ghost repr: set<TreeNode>)
    requires Arrives(rows)
    ensures fresh(repr)
    ensures RepresentsAll(forest, ForestOf(rows, rootId), repr)
  {
    var index: map<nat, TreeNode> := map[];
    forest := [];
    ghost var at: seq<TreeNode> := [];
    NestedEmpty(rows, rootId);
    for i := 0 to |rows|
      invariant forall k :: 0 <= k < |at| ==> fresh(at[k])
      invariant Nested(rows, rootId, i, at, index, forest)
    {
      ghost var node;
      index, forest, node := PlaceRow(rows, rootId, i, at, index, forest);
      at := at + [node];
    }
    repr := Elements(at);
    NestedRepresents(rows, rootId, at, index, forest, repr);
  }

  lemma {:induction false} FilledRepresents(rows: seq<Node>, rootId: Option<nat>, at: seq<TreeNode>, k: nat,
                                            repr: set<TreeNode>)
    requires Arrives(rows) && |at| == |rows| && k < |rows| && Kept(rows, rootId, k)
    requires forall i :: 0 <= i < |rows| ==> at[i] in repr && at[i].row == rows[i]
    requires AllFilled(rows, rootId, |rows|, at)
    ensures Represents(at[k], TreeAt(rows, rootId, k), repr)
    decreases |rows| - k
  {
    assert Filled(rows, rootId, |rows|, at, k);
    var ks := Kids(rows, rootId, k, |rows|);
    TreeAtIs(rows, rootId, k);
    forall x | 0 <= x < |ks| ensures Represents(at[k].children[x], TreeAt(rows, rootId, k).children[x], repr) {
      KeptParent(rows, rootId, k, ks[x]);
      FilledRepresents(rows, rootId, at, ks[x], repr);
    }
  }

  lemma {:induction false} NestedRepresents(rows: seq<Node>, rootId: Option<nat>, at: seq<TreeNode>,
                                            index: map<nat, TreeNode>, forest: seq<TreeNode>, repr: set<TreeNode>)
    requires Arrives(rows) && Nested(rows, rootId, |rows|, at, index, forest) && repr == Elements(at)
    ensures RepresentsAll(forest, ForestOf(rows, rootId), repr)
  {
    var ks := Tops(rows, rootId, |rows|);
    forall x | 0 <= x < |forest| ensures Represents(forest[x], ForestOf(rows, rootId)[x], repr) {
      KeptTop(rows, rootId, ks[x]);
      FilledRepresents(rows, rootId, at, ks[x], repr);
    }
  }

  /** Every node of the built forest, parents before children. */
  method FlattenCategoryForest(forest: seq<TreeNode>, ghost trees: seq<Tree>, ghost repr: set<TreeNode>)
    returns (out: seq<Node>)
    requires RepresentsAll(forest, trees, repr)
    ensures out == FlattenForest(trees)
    decreases trees
  {
    if forest == [] { return []; }
    var below := FlattenCategoryForest(forest[0].children, trees[0].children, repr);
    var after := FlattenCategoryForest(forest[1..], trees[1..], repr);
    return [forest[0].row] + below + after;
  }
}
