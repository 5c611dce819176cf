/** The attribute service: definitions written in place, and the two reads that resolve them up the tree. */
module AttributeService {
  import opened Prelude
  import opened Sorting
  import opened SearchPattern
  import opened CategoryPath
  import opened CategoryTree
  import opened CategoryMove
  import opened AttributeInheritance
  import Table = AttributeTable
  import Spec = AttributeDefinitions
  import CategoryWrites

  type Definition = Spec.Definition
  type AttributeError = Spec.AttributeError

  function AsAttribute(d: Definition): Attribute { Attribute(d.id, d.categoryId, d.key, d.title, d.sortOrder) }

  /** `rows` are the live definitions, in whatever order the database gives them. */
  ghost predicate Carries(a: Attribute, d: Definition) {
    a.id == d.id && a.categoryId == d.categoryId && a.key == d.key && a.title == d.title && a.sortOrder == d.sortOrder
  }

  ghost predicate ListsLive(defs: Spec.Definitions, rows: seq<Attribute>) {
    forall a :: a in rows <==> a.id in defs && !defs[a.id].deleted && Carries(a, defs[a.id])
  }

  /** The live definitions owned somewhere on the chain `lineage`. */
  ghost predicate ListsLineage(defs: Spec.Definitions, lineage: seq<nat>, rows: seq<Attribute>) {
    forall a :: a in rows <==> a.id in defs && !defs[a.id].deleted && Carries(a, defs[a.id])
                               && a.categoryId in lineage
  }

  // ------------------------------------------------- the rule and the resolver

  /** Of each key defined along the lineage the answer has one definition, the one owned nearest, and nothing else. */
  ghost predicate NearestOfEach(all: seq<Attribute>, lineage: seq<nat>, out: seq<Inherited>) {
    && (forall i, j :: 0 <= i < j < |out| ==> out[i].attribute.key != out[j].attribute.key)
    && (forall i :: 0 <= i < |out| ==> Candidate(all, lineage, out[i].attribute))
    && (forall a :: Candidate(all, lineage, a) ==>
                      exists i :: 0 <= i < |out| && out[i].attribute.key == a.key
                                  && LevelOf(lineage, a.categoryId) <= LevelOf(lineage, out[i].attribute.categoryId))
  }

  lemma {:induction false} ResolutionIsNearest(all: seq<Attribute>, lineage: seq<nat>, out: seq<Inherited>)
    requires IdsIdentify(all) && IsResolution(all, lineage, out) && lineage != []
    ensures NearestOfEach(all, lineage, out)
  {
    ResolutionMeans(all, lineage, out);
    forall i | 0 <= i < |out| ensures Candidate(all, lineage, out[i].attribute) { assert out[i] in out; }
    forall a | Candidate(all, lineage, a)
      ensures exists i :: 0 <= i < |out| && out[i].attribute.key == a.key
                          && LevelOf(lineage, a.categoryId) <= LevelOf(lineage, out[i].attribute.categoryId)
    {
      var winner := EveryKeyAnswered(all, lineage, a);
      var line := Inherited(winner, winner.categoryId != lineage[|lineage| - 1]);
      assert line in out;
      var i :| 0 <= i < |out| && out[i] == line;
    }
  }

  /**
   * After any run of definition, product and tree writes, moves that put one key twice on a lineage included: every
   * category still resolves, to exactly one answer, which has each key of its lineage once, from the nearest owner.
   */
  lemma {:induction false} ResolvesAfterAnyRun(cap: nat, render: Spec.Rendering, s: Spec.Catalogue, ops: seq<Spec.Op>,
                                               categoryId: nat, all: seq<Attribute>) returns (out: seq<Inherited>)
    requires Spec.Inv(cap, s) && categoryId in Spec.Run(cap, render, s, ops).tree.rows
    requires ListsLive(Spec.Run(cap, render, s, ops).defs, all)
    ensures Spec.Inv(cap, Spec.Run(cap, render, s, ops))
    ensures var lineage := Lineage(cap, Spec.Run(cap, render, s, ops).tree.rows, categoryId);
            && IsResolution(all, lineage, out) && NearestOfEach(all, lineage, out)
            && (forall other :: IsResolution(all, lineage, other) ==> other == out)
  {
    Spec.RunKeepsInv(cap, render, s, ops);
    var lineage := Lineage(cap, Spec.Run(cap, render, s, ops).tree.rows, categoryId);
    out := ResolutionExists(all, lineage);
    ResolutionIsNearest(all, lineage, out);
    forall other | IsResolution(all, lineage, other) ensures other == out {
      ResolutionUnique(all, all, lineage, other, out);
    }
  }

  /**
   * While the one-key rule holds, inheritance shadows nothing: every live definition on a category's
   * lineage wins its key there.
   */
  lemma {:induction false} NothingShadowed(cap: nat, rows: Rows, defs: Spec.Definitions, attributes: seq<Attribute>,
                                           categoryId: nat, a: Attribute)
    requires WellFormed(cap, rows) && Spec.Attached(rows, defs) && Spec.OneKeyPerLineage(cap, rows, defs)
    requires ListsLive(defs, attributes) && categoryId in rows
    requires a in attributes && AtOrBelow(cap, rows, categoryId, a.categoryId)
    ensures Wins(attributes, Lineage(cap, rows, categoryId), a)
  {
    forall other | Candidate(attributes, Lineage(cap, rows, categoryId), other) && other.key == a.key
      ensures other == a {
      OnlyOfItsKey(cap, rows, defs, attributes, categoryId, a, other);
    }
  }

  lemma {:induction false} OnlyOfItsKey(cap: nat, rows: Rows, defs: Spec.Definitions, attributes: seq<Attribute>,
                                        categoryId: nat, a: Attribute, b: Attribute)
    requires WellFormed(cap, rows) && Spec.Attached(rows, defs) && Spec.OneKeyPerLineage(cap, rows, defs)
    requires ListsLive(defs, attributes) && categoryId in rows && a in attributes && b in attributes && a.key == b.key
    requires AtOrBelow(cap, rows, categoryId, a.categoryId) && AtOrBelow(cap, rows, categoryId, b.categoryId)
    ensures a == b
  {
    OneChain(cap, rows, categoryId, a.categoryId, b.categoryId);
    assert Spec.SameLineage(cap, rows, defs[a.id].categoryId, defs[b.id].categoryId);
    assert a.id == b.id;
  }

  lemma {:induction false} OneChain(cap: nat, rows: Rows, id: nat, a: nat, b: nat)
    requires WellFormed(cap, rows) && id in rows && a in rows && b in rows
    requires AtOrBelow(cap, rows, id, a) && AtOrBelow(cap, rows, id, b)
    ensures Spec.SameLineage(cap, rows, a, b)
  {
    LineagePrefix(cap, rows, id, a);
    LineagePrefix(cap, rows, id, b);
    LineagePrefix(cap, rows, a, b);
    LineagePrefix(cap, rows, b, a);
    var x, y := Lineage(cap, rows, a), Lineage(cap, rows, b);
    assert x <= y || y <= x;
  }

  /** Rows restricted to the lineage in the query resolve as all live rows would. */
  lemma {:induction false} LineageRowsSuffice(defs: Spec.Definitions, lineage: seq<nat>, all: seq<Attribute>,
                                              some: seq<Attribute>, row: Attribute)
    requires ListsLive(defs, all) && ListsLineage(defs, lineage, some)
    ensures Wins(all, lineage, row) <==> Wins(some, lineage, row)
  {
    forall other ensures Candidate(all, lineage, other) <==> Candidate(some, lineage, other) { }
  }

  /** On one chain, further down means a longer path, so ordering by length is ordering by level. */
  lemma {:induction false} DeeperIsLonger(ids: seq<nat>, i: nat, j: nat)
    requires i < j < |ids|
    ensures |Render(ids[..i + 1])| < |Render(ids[..j + 1])|
  {
    var shorter, longer := ids[..i + 1], ids[..j + 1];
    RenderPrefix(shorter, longer);
    assert shorter <= longer;
    if Render(shorter) == Render(longer) { RenderInjective(shorter, longer); }
    assert Render(shorter) != Render(longer) by { assert |shorter| != |longer|; }
  }

  /** The path of the chain `ids` down to `owner`. */
  function PathTo(ids: seq<nat>, owner: nat): string
    requires owner in ids
  {
    Render(ids[..LevelOf(ids, owner) + 1])
  }

  lemma {:induction false} OwnerPath(cap: nat, rows: Rows, id: nat, owner: nat)
    requires WellFormed(cap, rows) && id in rows && AtOrBelow(cap, rows, id, owner)
    ensures owner in rows && rows[owner].path == PathTo(Lineage(cap, rows, id), owner)
  {
    var ids := Lineage(cap, rows, id);
    var i := LevelOf(ids, owner);
    LineageAt(rows, ids, i);
    LineageUnique(rows, owner, Lineage(cap, rows, owner), ids[..i + 1]);
  }

  /** The located rows, put in the query's order, are the query's answer. */
  lemma {:induction false} Queried(cap: nat, rows: Rows, id: nat, attributes: seq<Attribute>, held: map<string, string>,
                                   located: seq<Table.Located>)
    requires WellFormed(cap, rows) && id in rows
    requires forall a :: a in attributes ==> AtOrBelow(cap, rows, id, a.categoryId) && a.categoryId in rows
    requires forall l :: l in located <==> l.row in attributes && l.row.key in held
                                           && l.length == |rows[l.row.categoryId].path|
    ensures Table.IsQuery(attributes, Lineage(cap, rows, id), held, Sort(Table.NearestFirst, located))
  {
    var lineage, sorted := Lineage(cap, rows, id), Sort(Table.NearestFirst, located);
    Table.NearestFirstTotal();
    SortSorted(Table.NearestFirst, located);
    SortMembers(Table.NearestFirst, located);
    forall i | 0 <= i < |sorted| ensures Candidate(attributes, lineage, sorted[i].row) && sorted[i].row.key in held {
      assert sorted[i] in sorted;
    }
    forall a | Candidate(attributes, lineage, a) && a.key in held ensures Table.Occurs(sorted, a) {
      assert Table.Located(a, |rows[a.categoryId].path|) in sorted;
    }
    forall i, j | 0 <= i < |sorted| && 0 <= j < |sorted| ensures Table.Deeper(lineage, sorted[i], sorted[j]) {
      assert sorted[i] in sorted && sorted[j] in sorted;
      LevelsAsLengths(cap, rows, id, sorted[i].row.categoryId, sorted[j].row.categoryId);
    }
  }

  lemma {:induction false} LevelsAsRendered(ids: seq<nat>, a: nat, b: nat)
    requires a in ids && b in ids
    ensures LevelOf(ids, a) > LevelOf(ids, b) ==> |PathTo(ids, a)| > |PathTo(ids, b)|
  {
    if LevelOf(ids, a) > LevelOf(ids, b) { DeeperIsLonger(ids, LevelOf(ids, b), LevelOf(ids, a)); }
  }

  lemma {:induction false} LevelsAsLengths(cap: nat, rows: Rows, id: nat, a: nat, b: nat)
    requires WellFormed(cap, rows) && id in rows && AtOrBelow(cap, rows, id, a) && AtOrBelow(cap, rows, id, b)
    ensures a in rows && b in rows
    ensures LevelOf(Lineage(cap, rows, id), a) > LevelOf(Lineage(cap, rows, id), b) ==> |rows[a].path| > |rows[b].path|
  {
    OwnerPath(cap, rows, id, a);
    OwnerPath(cap, rows, id, b);
    LevelsAsRendered(Lineage(cap, rows, id), a, b);
  }

  class Attributes {
    const cap: nat
    const render: Spec.Rendering
    var tree: CategoryWrites.Table
    var defs: Spec.Definitions
    var nextDef: nat
    var items: map<nat, Spec.Item>

    ghost predicate Valid() reads this { Spec.Inv(cap, Contents()) }

    ghost predicate OneKey() reads this
      requires Valid()
    {
      Spec.OneKeyPerLineage(cap, tree.rows, defs)
    }

    function Contents(): Spec.Catalogue reads this { Spec.Catalogue(tree, defs, nextDef, items) }

    constructor (cap: nat, render: Spec.Rendering, tree: CategoryWrites.Table)
      requires CategoryWrites.Inv(cap, tree)
      ensures Valid() && OneKey() && this.cap == cap && this.render == render
      ensures Contents() == Spec.Catalogue(tree, map[], 1, map[])
    {
      this.cap, this.render, this.tree, defs, nextDef, items := cap, render, tree, map[], 1, map[];
    }

    method LastPosition(categoryId: nat) returns (next: int)
      ensures next == Spec.NextSortOrder(defs, categoryId)
    {
      var orders := set d | d in defs && defs[d].categoryId == categoryId && !defs[d].deleted :: defs[d].sortOrder;
      if orders == {} { return 0; }
      var last := Greatest(orders);
      next := last + 1;
    }

    /** The insert under the tree lock. */
    method Insert(input: Spec.NewDefinition) returns (created: Result<Definition, AttributeError>)
      modifies this`defs, this`nextDef
      ensures Spec.Outcome(Contents(), if created.Ok? then None
                  else Some(created.error)) == Spec.CreateDefinition(old(Contents()), input)
      ensures created.Ok? ==> old(nextDef) in defs && created.value == defs[old(nextDef)]
    {
      if !Live(tree.rows, input.categoryId) { return Err(Spec.CategoryMissing); }
      var category := tree.rows[input.categoryId];
      if Spec.Conflicts(tree.rows, defs, category.path, input.key) { return Err(Spec.KeyTaken); }
      var order: int;
      if input.sortOrder.Some? { order := input.sortOrder.value; } else { order := LastPosition(input.categoryId); }
      var id := nextDef;
      nextDef := nextDef + 1;
      if Spec.IndexTaken(defs, input.categoryId, input.key) { return Err(Spec.KeyTaken); }
      var row := Spec.Definition(id, input.categoryId, input.key, input.title, input.kind, input.options,
                                 input.isRequired, input.isFilterable, order, 0, false);
      defs := defs[id := row];
      return Ok(row);
    }

    method Create(input: Spec.NewDefinition) returns (created: Result<Definition, AttributeError>)
      requires Valid()
      modifies this`defs, this`nextDef
      ensures Valid() && (old(OneKey()) ==> OneKey())
      ensures Spec.Outcome(Contents(), if created.Ok? then None
                  else Some(created.error)) == Spec.CreateDefinition(old(Contents()), input)
      ensures created.Ok? ==> old(nextDef) in defs && created.value == defs[old(nextDef)]
    {
      Spec.CreateKeepsInv(cap, Contents(), input);
      if OneKey() { Spec.CreateKeepsRule(cap, Contents(), input); }
      created := Insert(input);
    }

    /** The products that stand on the definition, as the query joins them. */
    method StandingOn(d: Definition) returns (standing: set<nat>)
      ensures standing == Spec.UsedBy(Contents(), d)
    {
      standing := {};
      var todo := items.Keys;
      while todo != {}
        invariant todo <= items.Keys
        invariant standing == set p | p in items && p !in todo && Spec.Uses(Contents(), d, p)
        decreases |todo|
      {
        ghost var some := Pick(todo);
        assert some in todo;
        var p :| p in todo;
        todo := todo - {p};
        if Spec.Uses(Contents(), d, p) { standing := standing + {p}; }
      }
    }

    /** Whether one of the removed choices is carried by a product. */
    method RefuseNarrowing(stored: Definition, options: seq<string>) returns (inUse: bool)
      ensures inUse == Spec.NarrowsInUse(Contents(), render, stored, options)
    {
      var removed := Filter(o => o !in options, stored.options);
      forall o { FilterMembers(o => o !in options, stored.options, o); }
      var standing := StandingOn(stored);
      inUse := exists o :: o in removed && exists p :: p in standing
                                                       && Spec.HoldsChoice(render, items[p].values[stored.key], o);
      assert forall o :: Spec.Carried(Contents(), render, stored, o)
                     <==> exists p :: p in standing && Spec.HoldsChoice(render, items[p].values[stored.key], o);
      if inUse {
        var o :| o in removed && exists p :: p in standing && Spec.HoldsChoice(render, items[p].values[stored.key], o);
        var i :| 0 <= i < |stored.options| && stored.options[i] == o;
      }
    }

    /** The check of the option list and the guarded write. */
    method Rewrite(edit: Spec.Edit) returns (updated: Result<Definition, AttributeError>)
      modifies this`defs
      ensures Spec.Outcome(Contents(), if updated.Ok? then None
                  else Some(updated.error)) == Spec.UpdateDefinition(old(Contents()), render, edit)
      ensures updated.Ok? ==> edit.id in defs && updated.value == defs[edit.id]
    {
      if edit.id !in defs || defs[edit.id].deleted { return Err(Spec.DefinitionMissing); }
      var stored := defs[edit.id];
      if edit.options.Some? {
        if !Spec.OptionsFit(stored.kind, edit.options.value) { return Err(Spec.InvalidOptions); }
        var inUse := RefuseNarrowing(stored, edit.options.value);
        if inUse { return Err(Spec.OptionInUse); }
      }
      if stored.version != edit.version { return Err(Spec.VersionConflict); }
      defs := defs[edit.id := stored.(
        title := edit.title.GetOr(stored.title), options := edit.options.GetOr(stored.options),
        isRequired := edit.isRequired.GetOr(stored.isRequired),
            isFilterable := edit.isFilterable.GetOr(stored.isFilterable),
        sortOrder := (match edit.sortOrder case Some(n) => n case None => stored.sortOrder),
            version := stored.version + 1)];
      return Ok(defs[edit.id]);
    }

    method Update(edit: Spec.Edit) returns (updated: Result<Definition, AttributeError>)
      requires Valid()
      modifies this`defs
      ensures Valid() && (old(OneKey()) ==> OneKey())
      ensures Spec.Outcome(Contents(), if updated.Ok? then None
                  else Some(updated.error)) == Spec.UpdateDefinition(old(Contents()), render, edit)
      ensures updated.Ok? ==> edit.id in defs && updated.value == defs[edit.id]
    {
      Spec.UpdateKeepsInv(cap, Contents(), render, edit);
      if OneKey() { Spec.UpdateKeepsRule(cap, Contents(), render, edit); }
      updated := Rewrite(edit);
    }

    /** The count of the products in use and the soft removal. */
    method Retire(id: nat) returns (removed: Result<Definition, AttributeError>)
      modifies this`defs
      ensures Spec.Outcome(Contents(), if removed.Ok? then None
                  else Some(removed.error)) == Spec.RemoveDefinition(old(Contents()), id)
      ensures removed.Ok? ==> id in defs && removed.value == defs[id]
    {
      if id !in defs || defs[id].deleted { return Err(Spec.DefinitionMissing); }
      var standing := StandingOn(defs[id]);
      if standing != {} { return Err(Spec.InUse(|standing|)); }
      defs := defs[id := defs[id].(deleted := true, version := defs[id].version + 1)];
      return Ok(defs[id]);
    }

    method Remove(id: nat) returns (removed: Result<Definition, AttributeError>)
      requires Valid()
      modifies this`defs
      ensures Valid() && (old(OneKey()) ==> OneKey())
      ensures Spec.Outcome(Contents(), if removed.Ok? then None
                  else Some(removed.error)) == Spec.RemoveDefinition(old(Contents()), id)
      ensures removed.Ok? ==> id in defs && removed.value == defs[id]
    {
      Spec.RemoveKeepsInv(cap, Contents(), id);
      if OneKey() { Spec.RemoveKeepsRule(cap, Contents(), id); }
      removed := Retire(id);
    }

    /** The live definitions whose owner is one of `owners`. */
    method DefinedOn(owners: seq<nat>) returns (rows: seq<Attribute>)
      requires Valid()
      ensures ListsLineage(defs, owners, rows)
    {
      rows := [];
      var todo := defs.Keys;
      while todo != {}
        invariant todo <= defs.Keys
        invariant forall a :: a in rows <==> a.id in defs && a.id !in todo && !defs[a.id].deleted
                                             && a == AsAttribute(defs[a.id])
                                             && a.categoryId in owners
        decreases |todo|
      {
        ghost var some := Pick(todo);
        assert some in todo;
        var id :| id in todo;
        todo := todo - {id};
        if !defs[id].deleted && defs[id].categoryId in owners { rows := rows + [AsAttribute(defs[id])]; }
      }
    }

    /** Every definition that applies to a category, the nearest owner winning; the category must be live. */
    method EffectiveFor(categoryId: nat) returns (out: Option<seq<Inherited>>)
      requires Valid()
      ensures out.Some? <==> Live(tree.rows, categoryId)
      ensures out.Some? ==> forall all :: ListsLive(defs, all) ==>
                  IsResolution(all, Lineage(cap, tree.rows, categoryId), out.value)
    {
      if !Live(tree.rows, categoryId) { return None; }
      ghost var lineage := Lineage(cap, tree.rows, categoryId);
      AncestorIdsInverse(lineage);
      var ids := AncestorIdsOf(tree.rows[categoryId].path);
      var rows := DefinedOn(ids);
      var resolved := ResolveEffectiveAttributes(rows, ids);
      forall all | ListsLive(defs, all) ensures IsResolution(all, lineage, resolved) {
        var ranked :| IsRanking(rows, lineage, ranked) && resolved == Present(lineage, ranked);
        forall r: Ranked ensures Wins(all, lineage, r.row) <==> Wins(rows, lineage, r.row) {
          LineageRowsSuffice(defs, lineage, all, rows, r.row);
        }
        assert IsRanking(all, lineage, ranked);
      }
      return Some(resolved);
    }

    /** The ids of the categories whose path the given path starts with. */
    method OwnersAbove(path: string) returns (owners: seq<nat>)
      ensures forall k :: k in owners <==> k in tree.rows && Like(path, tree.rows[k].path + "%")
    {
      owners := [];
      var todo := tree.rows.Keys;
      while todo != {}
        invariant todo <= tree.rows.Keys
        invariant forall k :: k in owners <==> k in tree.rows && k !in todo && Like(path, tree.rows[k].path + "%")
        decreases |todo|
      {
        ghost var some := Pick(todo);
        assert some in todo;
        var k :| k in todo;
        todo := todo - {k};
        if Like(path, tree.rows[k].path + "%") { owners := owners + [k]; }
      }
    }

    /** The product page's table: the query's rows in its order, then the loop over them. */
    method TableFor(categoryId: nat, held: map<string, string>) returns (out: seq<Table.Line>)
      requires Valid() && categoryId in tree.rows
      ensures forall all :: ListsLive(defs, all) ==> Table.IsTable(all, Lineage(cap, tree.rows, categoryId), held, out)
    {
      ghost var lineage := Lineage(cap, tree.rows, categoryId);
      var owners := OwnersAbove(tree.rows[categoryId].path);
      forall k | k in tree.rows ensures k in owners <==> k in lineage { SubtreeQuery(cap, tree.rows, categoryId, k); }
      var rows := DefinedOn(owners);
      assert ListsLineage(defs, lineage, rows);
      var located := Locate(rows, held);
      var sorted := Sort(Table.NearestFirst, located);
      Queried(cap, tree.rows, categoryId, rows, held, located);
      out := Table.Build(sorted, held, rows, lineage);
      forall all | ListsLive(defs, all) ensures Table.IsTable(all, lineage, held, out) {
        var picks :| Table.IsSelection(rows, lineage, held, picks) && Table.Lines(picks, held, out);
        forall a ensures Wins(all, lineage, a) <==> Wins(rows, lineage, a) {
          LineageRowsSuffice(defs, lineage, all, rows, a);
        }
        assert Table.IsSelection(all, lineage, held, picks);
      }
    }

    method Locate(rows: seq<Attribute>, held: map<string, string>) returns (located: seq<Table.Located>)
      requires forall a :: a in rows ==> a.categoryId in tree.rows
      ensures forall l :: l in located <==> l.row in rows && l.row.key in held
                                            && l.length == |tree.rows[l.row.categoryId].path|
    {
      located := [];
      for i := 0 to |rows|
        invariant forall l :: l in located <==> l.row in rows[..i] && l.row.key in held
                                                && l.length == |tree.rows[l.row.categoryId].path|
      {
        assert rows[..i + 1] == rows[..i] + [rows[i]];
        assert rows[i] in rows;
        if rows[i].key in held { located := located + [Table.Located(rows[i], |tree.rows[rows[i].categoryId].path|)]; }
      }
      assert rows[..|rows|] == rows;
    }
  }
}
