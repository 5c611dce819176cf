/**
 * Attribute definitions on the category tree: one live definition of a key per lineage, the writes that
 * keep it so, and the moves that may break it.
 */
module AttributeDefinitions {
  import opened Prelude
  import opened SearchPattern
  import opened CategoryTree
  import opened CategoryMove
  import opened AttributeSchema
  import W = CategoryWrites

  datatype Definition = Definition(
    id: nat, categoryId: nat, key: string, title: string, kind: AttributeType, options: seq<string>,
    isRequired: bool, isFilterable: bool, sortOrder: int, version: nat, deleted: bool)

  type Definitions = map<nat, Definition>

  /** What the checks read of a product: where it is listed, whether it still is, and its attribute values. */
  datatype Item = Item(categoryId: nat, deleted: bool, values: Values)

  /** The category table, the definitions attached to it, and the products listed in it. */
  datatype Catalogue = Catalogue(tree: W.Table, defs: Definitions, nextDef: nat, items: map<nat, Item>)

  /** How the database writes a stored value that is not a string as text. */
  type Rendering = Json -> string

  datatype AttributeError =
    | CategoryMissing | KeyTaken | DefinitionMissing | VersionConflict
    | InvalidOptions | OptionInUse | InUse(count: nat)

  datatype Outcome = Outcome(state: Catalogue, error: Option<AttributeError>)

  // -------------------------------------------------------------- the rule

  /** `a` and `b` are one node or one lies above the other. */
  ghost predicate SameLineage(cap: nat, rows: Rows, a: nat, b: nat)
    requires WellFormed(cap, rows) && a in rows && b in rows
  {
    AtOrBelow(cap, rows, a, b) || AtOrBelow(cap, rows, b, a)
  }

  ghost predicate LiveKey(defs: Definitions, d: nat, key: string) {
    d in defs && !defs[d].deleted && defs[d].key == key
  }

  ghost predicate Attached(rows: Rows, defs: Definitions) {
    forall d :: d in defs ==> defs[d].id == d && defs[d].categoryId in rows
  }

  /** No two live definitions of one key lie on one lineage. */
  ghost predicate OneKeyPerLineage(cap: nat, rows: Rows, defs: Definitions)
    requires WellFormed(cap, rows) && Attached(rows, defs)
  {
    forall d, e :: d in defs && e in defs && d != e && !defs[d].deleted && !defs[e].deleted
                   && defs[d].key == defs[e].key ==>
                     !SameLineage(cap, rows, defs[d].categoryId, defs[e].categoryId)
  }

  /** What the partial unique index keeps: one live definition of a key per category. */
  ghost predicate UniqueKeys(defs: Definitions) {
    forall d, e :: d in defs && e in defs && !defs[d].deleted && !defs[e].deleted
                   && defs[d].key == defs[e].key && defs[d].categoryId == defs[e].categoryId
                   ==> d == e
  }

  ghost predicate Inv(cap: nat, s: Catalogue) {
    && W.Inv(cap, s.tree)
    && Attached(s.tree.rows, s.defs)
    && UniqueKeys(s.defs)
    && (forall d :: d in s.defs ==> d < s.nextDef)
    && (forall p :: p in s.items ==> s.items[p].categoryId in s.tree.rows)
  }

  /** The invariant with the rule. */
  ghost predicate Ruled(cap: nat, s: Catalogue) { Inv(cap, s) && OneKeyPerLineage(cap, s.tree.rows, s.defs) }

  // ------------------------------------------------------------ the writes

  /** The lineage query: a live definition of the key on a category above, at or below the path. */
  predicate Conflicts(rows: Rows, defs: Definitions, path: string, key: string) {
    exists d :: d in defs && !defs[d].deleted && defs[d].key == key && defs[d].categoryId in rows
                && (Like(rows[defs[d].categoryId].path, path + "%") || Like(path, rows[defs[d].categoryId].path + "%"))
  }

  /** What the unique index would refuse: a live definition of the key on that very category. */
  predicate IndexTaken(defs: Definitions, categoryId: nat, key: string) {
    exists d :: d in defs && !defs[d].deleted && defs[d].key == key && defs[d].categoryId == categoryId
  }

  ghost function NextSortOrder(defs: Definitions, categoryId: nat): int {
    var orders := set d | d in defs && defs[d].categoryId == categoryId && !defs[d].deleted :: defs[d].sortOrder;
    if orders == {} then 0 else MaxOf(orders) + 1
  }

  datatype NewDefinition = NewDefinition(
    categoryId: nat, key: string, title: string, kind: AttributeType, options: seq<string>,
    isRequired: bool, isFilterable: bool, sortOrder: Option<nat>)

  ghost function CreateDefinition(s: Catalogue, input: NewDefinition): Outcome {
    if !Live(s.tree.rows, input.categoryId) then Outcome(s, Some(CategoryMissing))
    else if Conflicts(s.tree.rows, s.defs, s.tree.rows[input.categoryId].path, input.key)
    then Outcome(s, Some(KeyTaken))
    else
      var order := match input.sortOrder case Some(n) => n case None => NextSortOrder(s.defs, input.categoryId);
      if IndexTaken(s.defs, input.categoryId, input.key) then Outcome(s.(nextDef := s.nextDef + 1), Some(KeyTaken))
      else Outcome(s.(defs := s.defs[s.nextDef := Definition(s.nextDef, input.categoryId, input.key, input.title,
                                                             input.kind,
                                                             input.options, input.isRequired, input.isFilterable, order,
                                                                 0, false)],
                   nextDef := s.nextDef + 1), None)
  }

  predicate OptionsFit(kind: AttributeType, options: seq<string>) {
    && (if kind.SELECT? || kind.MULTI_SELECT? then options != [] else options == [])
    && |Elements(options)| == |options|
  }

  datatype Edit = Edit(
    id: nat, version: nat, title: Option<string>, options: Option<seq<string>>,
    isRequired: Option<bool>, isFilterable: Option<bool>, sortOrder: Option<nat>)

  /** The product query: a live product listed on the definition's category or below it, with a value under its key. */
  predicate Uses(s: Catalogue, d: Definition, p: nat) {
    && p in s.items && !s.items[p].deleted && d.key in s.items[p].values
    && s.items[p].categoryId in s.tree.rows && d.categoryId in s.tree.rows
    && Like(s.tree.rows[s.items[p].categoryId].path, s.tree.rows[d.categoryId].path + "%")
  }

  function UsedBy(s: Catalogue, d: Definition): set<nat> { set p | p in s.items && Uses(s, d, p) }

  /** One entry of a stored value, as text; a null has none. */
  function EntryText(render: Rendering, entry: Json): Option<string> {
    match entry
    case JString(text) => Some(text)
    case JNull => None
    case _ => Some(render(entry))
  }

  /** The value holds the choice: as one of its entries if it is an array, otherwise as itself. */
  predicate HoldsChoice(render: Rendering, value: Json, option: string) {
    if value.JArray? then exists i :: 0 <= i < |value.items| && EntryText(render, value.items[i]) == Some(option)
    else EntryText(render, value) == Some(option)
  }

  /** Written out: a text, or a list with it as an entry, or something else that is written that way. */
  lemma {:induction false} HoldsChoiceExact(render: Rendering, value: Json, option: string)
    ensures value.JString? ==> (HoldsChoice(render, value, option) <==> value.s == option)
    ensures value.JNull? ==> !HoldsChoice(render, value, option)
    ensures value.JBool? || value.JNumber? || value.JObject? ==>
                (HoldsChoice(render, value, option) <==> render(value) == option)
    ensures value.JArray? ==>
              (HoldsChoice(render, value, option) <==>
                 exists i :: 0 <= i < |value.items| && !value.items[i].JNull?
                             && option == if value.items[i].JString? then value.items[i].s else render(value.items[i]))
  {
  }

  predicate Carried(s: Catalogue, render: Rendering, d: Definition, option: string) {
    exists p :: p in UsedBy(s, d) && HoldsChoice(render, s.items[p].values[d.key], option)
  }

  function UpdateDefinition(s: Catalogue, render: Rendering, edit: Edit): Outcome {
    if edit.id !in s.defs || s.defs[edit.id].deleted then Outcome(s, Some(DefinitionMissing))
    else
      var row := s.defs[edit.id];
      if edit.options.Some? && !OptionsFit(row.kind, edit.options.value) then Outcome(s, Some(InvalidOptions))
      else if edit.options.Some? && NarrowsInUse(s, render, row, edit.options.value) then Outcome(s, Some(OptionInUse))
      else if row.version != edit.version then Outcome(s, Some(VersionConflict))
      else Outcome(s.(defs := s.defs[edit.id := Edited(row, edit)]), None)
  }

  /** Some choice is dropped that a product carries. */
  predicate NarrowsInUse(s: Catalogue, render: Rendering, row: Definition, options: seq<string>) {
    exists i :: 0 <= i < |row.options| && row.options[i] !in options && Carried(s, render, row, row.options[i])
  }

  function Edited(row: Definition, edit: Edit): Definition {
    row.(title := edit.title.GetOr(row.title), options := edit.options.GetOr(row.options),
         isRequired := edit.isRequired.GetOr(row.isRequired), isFilterable := edit.isFilterable.GetOr(row.isFilterable),
         sortOrder := (match edit.sortOrder case Some(n) => n case None => row.sortOrder), version := row.version + 1)
  }

  function RemoveDefinition(s: Catalogue, id: nat): Outcome {
    if id !in s.defs || s.defs[id].deleted then Outcome(s, Some(DefinitionMissing))
    else if UsedBy(s, s.defs[id]) != {} then Outcome(s, Some(InUse(|UsedBy(s, s.defs[id])|)))
    else Outcome(s.(defs := s.defs[id := s.defs[id].(deleted := true, version := s.defs[id].version + 1)]), None)
  }

  // ------------------------------------------------- the check and the rule

  /** The lineage query finds something exactly when a live definition of the key shares the category's lineage. */
  lemma {:induction false} ConflictsIff(cap: nat, rows: Rows, defs: Definitions, categoryId: nat, key: string)
    requires WellFormed(cap, rows) && Attached(rows, defs) && categoryId in rows
    ensures Conflicts(rows, defs, rows[categoryId].path, key)
       <==> exists d :: LiveKey(defs, d, key) && SameLineage(cap, rows, defs[d].categoryId, categoryId)
  {
    forall d | d in defs
      ensures SameLineage(cap, rows, defs[d].categoryId, categoryId)
         <==> Like(rows[defs[d].categoryId].path, rows[categoryId].path + "%")
              || Like(rows[categoryId].path, rows[defs[d].categoryId].path + "%")
    {
      SubtreeQuery(cap, rows, defs[d].categoryId, categoryId);
      SubtreeQuery(cap, rows, categoryId, defs[d].categoryId);
    }
    if d :| LiveKey(defs, d, key) && SameLineage(cap, rows, defs[d].categoryId, categoryId) {
      assert d in defs;
    }
    if Conflicts(rows, defs, rows[categoryId].path, key) {
      var d :| d in defs && !defs[d].deleted && defs[d].key == key && defs[d].categoryId in rows
               && (Like(rows[defs[d].categoryId].path, rows[categoryId].path + "%")
                   || Like(rows[categoryId].path, rows[defs[d].categoryId].path + "%"));
      assert LiveKey(defs, d, key);
    }
  }

  /** The lineage check already covers the category itself, so the index never has to answer. */
  lemma {:induction false} IndexNeverAnswers(cap: nat, s: Catalogue, input: NewDefinition)
    requires Inv(cap, s) && Live(s.tree.rows, input.categoryId)
    requires !Conflicts(s.tree.rows, s.defs, s.tree.rows[input.categoryId].path, input.key)
    ensures !IndexTaken(s.defs, input.categoryId, input.key)
  {
    SubtreeQuery(cap, s.tree.rows, input.categoryId, input.categoryId);
  }

  lemma {:induction false} CreateKeepsRule(cap: nat, s: Catalogue, input: NewDefinition)
    requires Ruled(cap, s)
    ensures Ruled(cap, CreateDefinition(s, input).state)
  {
    var after := CreateDefinition(s, input);
    if after.error.None? {
      var rows, defs, n := s.tree.rows, after.state.defs, s.nextDef;
      ConflictsIff(cap, rows, s.defs, input.categoryId, input.key);
      forall d, e | d in defs && e in defs && d != e && !defs[d].deleted && !defs[e].deleted
                    && defs[d].key == defs[e].key
        ensures !SameLineage(cap, rows, defs[d].categoryId, defs[e].categoryId)
      {
        if d == n {
          assert LiveKey(s.defs, e, input.key);
        } else if e == n {
          assert LiveKey(s.defs, d, input.key);
        }
      }
    }
  }

  /** No definition comes or goes, moves to another key or category, or is revived. */
  ghost predicate OnlyEdited(defs: Definitions, after: Definitions) {
    && after.Keys == defs.Keys
    && (forall d :: d in defs ==> after[d].id == defs[d].id && after[d].categoryId == defs[d].categoryId
                                  && after[d].key == defs[d].key)
    && (forall d :: d in defs && defs[d].deleted ==> after[d].deleted)
  }

  lemma {:induction false} FewerKeepRule(cap: nat, s: Catalogue, defs: Definitions)
    requires Ruled(cap, s) && OnlyEdited(s.defs, defs)
    ensures Ruled(cap, s.(defs := defs))
  {
  }

  lemma {:induction false} EditedOnly(defs: Definitions, edit: Edit)
    requires edit.id in defs && defs[edit.id].id == edit.id
    ensures OnlyEdited(defs, defs[edit.id := Edited(defs[edit.id], edit)])
  {
  }

  lemma {:induction false} UpdateKeepsRule(cap: nat, s: Catalogue, render: Rendering, edit: Edit)
    requires Ruled(cap, s)
    ensures Ruled(cap, UpdateDefinition(s, render, edit).state)
  {
    if UpdateDefinition(s, render, edit).error.None? {
      EditedOnly(s.defs, edit);
      FewerKeepRule(cap, s, s.defs[edit.id := Edited(s.defs[edit.id], edit)]);
    }
  }

  lemma {:induction false} RemoveKeepsRule(cap: nat, s: Catalogue, id: nat)
    requires Ruled(cap, s)
    ensures Ruled(cap, RemoveDefinition(s, id).state)
  {
    if RemoveDefinition(s, id).error.None? { FewerKeepRule(cap, s, RemoveDefinition(s, id).state.defs); }
  }

  /**
   * A definition is created exactly on a live category whose lineage has no live one of the key, as asked for and last.
   */
  lemma {:induction false} CreateExact(cap: nat, s: Catalogue, input: NewDefinition)
    requires Inv(cap, s)
    ensures CreateDefinition(s, input).error.None?
       <==> && Live(s.tree.rows, input.categoryId)
            && !exists d :: LiveKey(s.defs, d, input.key)
                            && SameLineage(cap, s.tree.rows, s.defs[d].categoryId, input.categoryId)
    ensures CreateDefinition(s, input).error.None? ==>
              var after := CreateDefinition(s, input).state;
              && after.tree == s.tree && after.items == s.items && after.nextDef == s.nextDef + 1
              && after.defs.Keys == s.defs.Keys + {s.nextDef}
              && (forall d :: d in s.defs ==> after.defs[d] == s.defs[d])
              && var row := after.defs[s.nextDef];
                 && row.categoryId == input.categoryId && row.key == input.key && row.kind == input.kind
                 && row.options == input.options
                 && row.id == s.nextDef && row.title == input.title
                 && row.isRequired == input.isRequired && row.isFilterable == input.isFilterable
                 && row.version == 0 && !row.deleted
                 && (if input.sortOrder.Some? then row.sortOrder == input.sortOrder.value
                     else LastInOrder(s.defs, input.categoryId, row.sortOrder))
    ensures CreateDefinition(s, input).error == Some(CategoryMissing) <==> !Live(s.tree.rows, input.categoryId)
    ensures CreateDefinition(s, input).error == Some(KeyTaken)
       <==> && Live(s.tree.rows, input.categoryId)
            && exists d :: LiveKey(s.defs, d, input.key)
                           && SameLineage(cap, s.tree.rows, s.defs[d].categoryId, input.categoryId)
  {
    if Live(s.tree.rows, input.categoryId) {
      ConflictsIff(cap, s.tree.rows, s.defs, input.categoryId, input.key);
      if !Conflicts(s.tree.rows, s.defs, s.tree.rows[input.categoryId].path, input.key) {
        IndexNeverAnswers(cap, s, input);
      }
      NextIsLast(s.defs, input.categoryId);
    }
  }

  /** One past the last live definition of the category, or first when there is none. */
  ghost predicate LastInOrder(defs: Definitions, categoryId: nat, place: int) {
    && (forall d :: d in defs && defs[d].categoryId == categoryId && !defs[d].deleted ==> defs[d].sortOrder < place)
    && (place == 0 || exists d :: d in defs && defs[d].categoryId == categoryId && !defs[d].deleted
                                  && defs[d].sortOrder == place - 1)
  }

  lemma {:induction false} NextIsLast(defs: Definitions, categoryId: nat)
    ensures LastInOrder(defs, categoryId, NextSortOrder(defs, categoryId))
  {
    var orders := set d | d in defs && defs[d].categoryId == categoryId && !defs[d].deleted :: defs[d].sortOrder;
    forall d | d in defs && defs[d].categoryId == categoryId && !defs[d].deleted
      ensures defs[d].sortOrder < NextSortOrder(defs, categoryId)
    {
      assert defs[d].sortOrder in orders;
    }
  }

  /** A live product listed at or below the definition's category, with a value under its key. */
  ghost predicate StandsOn(cap: nat, s: Catalogue, d: Definition, p: nat)
    requires Inv(cap, s) && d.categoryId in s.tree.rows
  {
    p in s.items && !s.items[p].deleted && d.key in s.items[p].values
    && AtOrBelow(cap, s.tree.rows, s.items[p].categoryId, d.categoryId)
  }

  /** Every choice of the definition that a product standing on it holds is among `options`. */
  ghost predicate KeepsCarried(cap: nat, s: Catalogue, render: Rendering, d: Definition, options: seq<string>)
    requires Inv(cap, s) && d.categoryId in s.tree.rows
  {
    forall p, o | StandsOn(cap, s, d, p) && o in d.options && HoldsChoice(render, s.items[p].values[d.key], o) ::
        o in options
  }

  /** The product query finds exactly the products that stand on the definition. */
  lemma {:induction false} UsesIff(cap: nat, s: Catalogue, d: nat, p: nat)
    requires Inv(cap, s) && d in s.defs
    ensures p in UsedBy(s, s.defs[d]) <==> StandsOn(cap, s, s.defs[d], p)
  {
    if p in s.items { SubtreeQuery(cap, s.tree.rows, s.items[p].categoryId, s.defs[d].categoryId); }
  }

  /**
   * An edit is written exactly for a live definition of that version whose new choices fit its type and leave out
   * none that a product at or below its category carries.
   */
  lemma {:induction false} UpdateWrittenIff(cap: nat, s: Catalogue, render: Rendering, edit: Edit)
    requires Inv(cap, s)
    ensures UpdateDefinition(s, render, edit).error.None?
       <==> && edit.id in s.defs && !s.defs[edit.id].deleted && s.defs[edit.id].version == edit.version
            && (edit.options.Some? ==>
                  && OptionsFit(s.defs[edit.id].kind, edit.options.value)
                  && KeepsCarried(cap, s, render, s.defs[edit.id], edit.options.value))
  {
    if edit.id in s.defs && edit.options.Some? { NarrowsIff(cap, s, render, edit.id, edit.options.value); }
  }

  /** Which refusal an edit gets: the row first, then the choices, then the choices in use, then the version. */
  lemma {:induction false} UpdateRefusals(cap: nat, s: Catalogue, render: Rendering, edit: Edit)
    requires Inv(cap, s)
    ensures var error := UpdateDefinition(s, render, edit).error;
            var there := edit.id in s.defs && !s.defs[edit.id].deleted;
            var fit := there && edit.options.Some? ==> OptionsFit(s.defs[edit.id].kind, edit.options.value);
            var kept := there && edit.options.Some? ==>
                          KeepsCarried(cap, s, render, s.defs[edit.id], edit.options.value);
            && (error == Some(DefinitionMissing) <==> !there)
            && (error == Some(InvalidOptions) <==> there && !fit)
            && (error == Some(OptionInUse) <==> there && fit && !kept)
            && (error == Some(VersionConflict) <==> there && fit && kept && s.defs[edit.id].version != edit.version)
            && (error.Some? ==> UpdateDefinition(s, render, edit).state == s)
  {
    if edit.id in s.defs && edit.options.Some? { NarrowsIff(cap, s, render, edit.id, edit.options.value); }
  }

  /** Choices fit a type that has choices when there is one and none twice, and any other when there are none. */
  lemma {:induction false} OptionsFitIff(kind: AttributeType, options: seq<string>)
    ensures OptionsFit(kind, options) <==> if kind == SELECT || kind == MULTI_SELECT
                                           then options != [] && Distinct(options) else options == []
  {
    if Distinct(options) { DistinctCardinality(options); }
    if |Elements(options)| == |options| { CardinalityDistinct(options); }
  }

  lemma {:induction false} NarrowsIff(cap: nat, s: Catalogue, render: Rendering, d: nat, options: seq<string>)
    requires Inv(cap, s) && d in s.defs
    ensures !NarrowsInUse(s, render, s.defs[d], options) <==> KeepsCarried(cap, s, render, s.defs[d], options)
  {
    var row := s.defs[d];
    forall p ensures p in UsedBy(s, row) <==> StandsOn(cap, s, row, p) { UsesIff(cap, s, d, p); }
    if NarrowsInUse(s, render, row, options) {
      var i :| 0 <= i < |row.options| && row.options[i] !in options && Carried(s, render, row, row.options[i]);
      var p :| p in UsedBy(s, row) && HoldsChoice(render, s.items[p].values[row.key], row.options[i]);
      assert StandsOn(cap, s, row, p);
    } else {
      forall p, o | StandsOn(cap, s, row, p) && o in row.options && HoldsChoice(render, s.items[p].values[row.key], o)
        ensures o in options {
        var i :| 0 <= i < |row.options| && row.options[i] == o;
        assert p in UsedBy(s, row);
        assert Carried(s, render, row, row.options[i]);
      }
    }
  }

  /**
   * An edit moves no definition to another key, type or category, and drops no choice a live product below it holds.
   */
  lemma {:induction false} UpdateExact(cap: nat, s: Catalogue, render: Rendering, edit: Edit)
    requires Inv(cap, s) && UpdateDefinition(s, render, edit).error.None?
    ensures edit.id in s.defs && s.defs[edit.id].version == edit.version
    ensures var after := UpdateDefinition(s, render, edit).state;
            && after.tree == s.tree && after.items == s.items && after.defs.Keys == s.defs.Keys
            && (forall d :: d in s.defs && d != edit.id ==> after.defs[d] == s.defs[d])
            && var before, row := s.defs[edit.id], after.defs[edit.id];
               && row.id == before.id && row.key == before.key && row.kind == before.kind
               && row.categoryId == before.categoryId && !row.deleted
               && row.version == before.version + 1
               && KeepsCarried(cap, s, render, before, row.options)
               && (edit.options.Some? ==> row.options == edit.options.value && OptionsFit(row.kind, row.options))
               && (edit.options.None? ==> row.options == before.options)
               && (if edit.title.Some? then row.title == edit.title.value else row.title == before.title)
               && (if edit.isRequired.Some? then row.isRequired == edit.isRequired.value
                   else row.isRequired == before.isRequired)
               && (if edit.isFilterable.Some? then row.isFilterable == edit.isFilterable.value
                   else row.isFilterable == before.isFilterable)
               && (if edit.sortOrder.Some? then row.sortOrder == edit.sortOrder.value
                   else row.sortOrder == before.sortOrder)
    ensures UpdateDefinition(s, render, edit).state.nextDef == s.nextDef
  {
    UpdateWrittenIff(cap, s, render, edit);
  }

  /**
   * A removal is written exactly for a live definition no live product stands on, and the refusal counts those that do;
   * what is removed is that row alone.
   */
  lemma {:induction false} RemoveExact(cap: nat, s: Catalogue, id: nat)
    requires Inv(cap, s)
    ensures RemoveDefinition(s, id).error.None?
       <==> id in s.defs && !s.defs[id].deleted && forall p :: !StandsOn(cap, s, s.defs[id], p)
    ensures RemoveDefinition(s, id).error.None? ==>
              RemoveDefinition(s, id).state
                  == s.(defs := s.defs[id := s.defs[id].(deleted := true, version := s.defs[id].version + 1)])
    ensures RemoveDefinition(s, id).error == Some(DefinitionMissing) <==> id !in s.defs || s.defs[id].deleted
    ensures RemoveDefinition(s, id).error.Some? ==> RemoveDefinition(s, id).state == s
    ensures RemoveDefinition(s, id).error.Some? && RemoveDefinition(s, id).error.value.InUse? ==>
              exists standing: set<nat> ::
                && RemoveDefinition(s, id).error.value.count == |standing|
                && id in s.defs && forall p :: p in standing <==> StandsOn(cap, s, s.defs[id], p)
  {
    if id in s.defs {
      forall p ensures p in UsedBy(s, s.defs[id]) <==> StandsOn(cap, s, s.defs[id], p) { UsesIff(cap, s, id, p); }
      if UsedBy(s, s.defs[id]) != {} { var p := Pick(UsedBy(s, s.defs[id])); }
    }
  }

  // ------------------------------------------- what the tree's writes do to it

  /** Rows kept with their parent edges keep their lineages. */
  lemma {:induction false} LineageKept(cap: nat, rows: Rows, after: Rows, id: nat)
    requires WellFormed(cap, rows) && WellFormed(cap, after) && rows.Keys <= after.Keys && id in rows
    requires forall k :: k in rows ==> after[k].parentId == rows[k].parentId
    ensures Lineage(cap, after, id) == Lineage(cap, rows, id)
  {
    var ids := Lineage(cap, rows, id);
    assert LineageOf(after, id, ids) by {
      forall i | 0 <= i < |ids| ensures ids[i] in after && after[ids[i]].parentId == rows[ids[i]].parentId { }
    }
    LineageUnique(after, id, ids, Lineage(cap, after, id));
  }

  lemma {:induction false} EdgesKeptKeepsRule(cap: nat, rows: Rows, after: Rows, defs: Definitions)
    requires WellFormed(cap, rows) && WellFormed(cap, after) && rows.Keys <= after.Keys && Attached(rows, defs)
    requires forall k :: k in rows ==> after[k].parentId == rows[k].parentId
    requires OneKeyPerLineage(cap, rows, defs)
    ensures Attached(after, defs) && OneKeyPerLineage(cap, after, defs)
  {
    forall d, e | d in defs && e in defs && d != e && !defs[d].deleted && !defs[e].deleted && defs[d].key == defs[e].key
      ensures !SameLineage(cap, after, defs[d].categoryId, defs[e].categoryId)
    {
      LineageKept(cap, rows, after, defs[d].categoryId);
      LineageKept(cap, rows, after, defs[e].categoryId);
    }
  }

  /** Everything the tree's writes may do but a move: no parent edge of an existing row changes. */
  lemma {:induction false} NoMoveKeepsEdges(cap: nat, t: W.Table, op: W.Op)
    requires W.Inv(cap, t) && !op.MoveOp?
    ensures var after := W.Step(cap, t, op).table;
            && W.Inv(cap, after)
            && t.rows.Keys <= after.rows.Keys
            && forall k :: k in t.rows ==> after.rows[k].parentId == t.rows[k].parentId
  {
    W.StepKeeps(cap, t, op);
    if op.ReorderOp? { W.ReorderExact(t, op.under, op.orderedIds); }
  }

  // ------------------------------------------------------------------- runs

  datatype Op =
    | TreeOp(op: W.Op)
    | CreateOp(input: NewDefinition)
    | UpdateOp(edit: Edit)
    | RemoveOp(id: nat)
    | ListingOp(items: map<nat, Item>)

  /** One write; of the products' own writes only that a listing stays on a category that exists. */
  ghost function Step(cap: nat, render: Rendering, s: Catalogue, op: Op): Catalogue {
    match op
    case TreeOp(o) => s.(tree := W.Step(cap, s.tree, o).table)
    case CreateOp(input) => CreateDefinition(s, input).state
    case UpdateOp(edit) => UpdateDefinition(s, render, edit).state
    case RemoveOp(id) => RemoveDefinition(s, id).state
    case ListingOp(items) => if forall p :: p in items ==> items[p].categoryId in s.tree.rows then s.(items := items)
        else s
  }

  ghost function Run(cap: nat, render: Rendering, s: Catalogue, ops: seq<Op>): Catalogue
    decreases |ops|
  {
    if ops == [] then s else Run(cap, render, Step(cap, render, s, ops[0]), ops[1..])
  }

  ghost predicate NoMoves(ops: seq<Op>) { forall i :: 0 <= i < |ops| ==> !(ops[i].TreeOp? && ops[i].op.MoveOp?) }

  lemma {:induction false} DefinitionsKeptInv(cap: nat, s: Catalogue, defs: Definitions)
    requires Inv(cap, s) && OnlyEdited(s.defs, defs)
    ensures Inv(cap, s.(defs := defs))
  {
  }

  lemma {:induction false} InsertKeepsInv(cap: nat, s: Catalogue, row: Definition)
    requires Inv(cap, s) && row.id == s.nextDef && row.categoryId in s.tree.rows
    requires !IndexTaken(s.defs, row.categoryId, row.key)
    ensures Inv(cap, s.(defs := s.defs[s.nextDef := row], nextDef := s.nextDef + 1))
  {
    var defs := s.defs[s.nextDef := row];
    forall d, e | d in defs && e in defs && !defs[d].deleted && !defs[e].deleted && defs[d].key == defs[e].key
                  && defs[d].categoryId == defs[e].categoryId
      ensures d == e
    {
    }
  }

  lemma {:induction false} CreateKeepsInv(cap: nat, s: Catalogue, input: NewDefinition)
    requires Inv(cap, s)
    ensures Inv(cap, CreateDefinition(s, input).state)
  {
    var after := CreateDefinition(s, input);
    if after.error.None? { InsertKeepsInv(cap, s, after.state.defs[s.nextDef]); }
  }

  lemma {:induction false} UpdateKeepsInv(cap: nat, s: Catalogue, render: Rendering, edit: Edit)
    requires Inv(cap, s)
    ensures Inv(cap, UpdateDefinition(s, render, edit).state)
  {
    if UpdateDefinition(s, render, edit).error.None? {
      EditedOnly(s.defs, edit);
      DefinitionsKeptInv(cap, s, s.defs[edit.id := Edited(s.defs[edit.id], edit)]);
    }
  }

  lemma {:induction false} RemoveKeepsInv(cap: nat, s: Catalogue, id: nat)
    requires Inv(cap, s)
    ensures Inv(cap, RemoveDefinition(s, id).state)
  {
    if RemoveDefinition(s, id).error.None? { DefinitionsKeptInv(cap, s, RemoveDefinition(s, id).state.defs); }
  }

  lemma {:induction false} StepKeepsInv(cap: nat, render: Rendering, s: Catalogue, op: Op)
    requires Inv(cap, s)
    ensures Inv(cap, Step(cap, render, s, op))
  {
    match op
    case TreeOp(o) => W.StepKeeps(cap, s.tree, o);
    case CreateOp(input) => CreateKeepsInv(cap, s, input);
    case UpdateOp(edit) => UpdateKeepsInv(cap, s, render, edit);
    case RemoveOp(id) => RemoveKeepsInv(cap, s, id);
    case ListingOp(_) =>
  }

  /** In every run, moves included: the tree well formed, definitions on it, one live one of a key per category. */
  lemma {:induction false} RunKeepsInv(cap: nat, render: Rendering, s: Catalogue, ops: seq<Op>)
    requires Inv(cap, s)
    ensures Inv(cap, Run(cap, render, s, ops))
    decreases |ops|
  {
    if ops != [] {
      StepKeepsInv(cap, render, s, ops[0]);
      RunKeepsInv(cap, render, Step(cap, render, s, ops[0]), ops[1..]);
    }
  }

  lemma {:induction false} TreeStepKeepsRule(cap: nat, s: Catalogue, op: W.Op)
    requires Ruled(cap, s) && !op.MoveOp?
    ensures Ruled(cap, s.(tree := W.Step(cap, s.tree, op).table))
  {
    NoMoveKeepsEdges(cap, s.tree, op);
    var tree := W.Step(cap, s.tree, op).table;
    EdgesKeptKeepsRule(cap, s.tree.rows, tree.rows, s.defs);
  }

  lemma {:induction false} StepKeepsRule(cap: nat, render: Rendering, s: Catalogue, op: Op)
    requires Ruled(cap, s) && !(op.TreeOp? && op.op.MoveOp?)
    ensures Ruled(cap, Step(cap, render, s, op))
  {
    match op
    case TreeOp(o) => TreeStepKeepsRule(cap, s, o);
    case CreateOp(input) => CreateKeepsRule(cap, s, input);
    case UpdateOp(edit) => UpdateKeepsRule(cap, s, render, edit);
    case RemoveOp(id) => RemoveKeepsRule(cap, s, id);
    case ListingOp(_) =>
  }

  /**
   * In every run of definition writes, product writes and tree writes other than moves, no two live definitions of
   * one key ever lie on one lineage.
   */
  lemma {:induction false} RunKeepsRule(cap: nat, render: Rendering, s: Catalogue, ops: seq<Op>)
    requires Ruled(cap, s) && NoMoves(ops)
    ensures Ruled(cap, Run(cap, render, s, ops))
    decreases |ops|
  {
    if ops != [] {
      StepKeepsRule(cap, render, s, ops[0]);
      RunKeepsRule(cap, render, Step(cap, render, s, ops[0]), ops[1..]);
    }
  }

  // ------------------------------------------------------------ and with moves

  /** A key defined both inside the moved subtree and on the destination's lineage. */
  ghost predicate Collides(cap: nat, rows: Rows, defs: Definitions, id: nat, parentId: Option<nat>)
    requires WellFormed(cap, rows) && Attached(rows, defs) && id in rows && (parentId.Some? ==> parentId.value in rows)
  {
    parentId.Some? &&
    exists d, e :: d in defs && e in defs && !defs[d].deleted && !defs[e].deleted && defs[d].key == defs[e].key
                   && AtOrBelow(cap, rows, defs[d].categoryId, id)
                   && AtOrBelow(cap, rows, parentId.value, defs[e].categoryId)
  }

  lemma {:induction false} MovedLineageIs(cap: nat, rows: Rows, id: nat, parentId: Option<nat>, sortOrder: Option<int>,
                                          k: nat)
    requires WellFormed(cap, rows) && Live(rows, id) && (parentId.Some? ==> Live(rows, parentId.value)) && k in rows
    requires Refusal(cap, rows, id, parentId) == None
    ensures WellFormed(cap, MoveRows(rows, id, parentId, sortOrder))
    ensures Lineage(cap, MoveRows(rows, id, parentId, sortOrder), k) == MovedLineage(cap, rows, id, parentId, k)
  {
    MoveDecision(cap, rows, id, parentId);
    MoveRecomputes(cap, rows, id, parentId, sortOrder);
    MovedLineageHolds(cap, rows, id, parentId, k);
    var after := MoveRows(rows, id, parentId, sortOrder);
    assert Cached(after, k, MovedLineage(cap, rows, id, parentId, k));
    LineageUnique(after, k, Lineage(cap, after, k), MovedLineage(cap, rows, id, parentId, k));
  }

  /** After the move `a` lies at or below `b` when it did before within one side, or across the new edge. */
  lemma {:induction false} MovedBelow(cap: nat, rows: Rows, id: nat, parentId: Option<nat>, sortOrder: Option<int>,
                                      a: nat, b: nat)
    requires WellFormed(cap, rows) && Live(rows, id) && (parentId.Some? ==> Live(rows, parentId.value)) && a in rows
    requires b in rows
    requires Refusal(cap, rows, id, parentId) == None
    ensures WellFormed(cap, MoveRows(rows, id, parentId, sortOrder))
    ensures AtOrBelow(cap, MoveRows(rows, id, parentId, sortOrder), a, b)
       <==> if AtOrBelow(cap, rows, a, id)
            then (AtOrBelow(cap, rows, b, id) && AtOrBelow(cap, rows, a, b))
            || (parentId.Some? && AtOrBelow(cap, rows, parentId.value, b))
            else AtOrBelow(cap, rows, a, b)
  {
    MovedLineageIs(cap, rows, id, parentId, sortOrder, a);
    if AtOrBelow(cap, rows, a, id) {
      LineagePrefix(cap, rows, a, id);
      var src, own := Lineage(cap, rows, id), Lineage(cap, rows, a);
      LineageDistinct(rows, own);
      InsideIff(cap, rows, id, a, b);
    }
  }

  /** Within a subtree: the nodes of `a`'s chain from `id` downwards are those at or below `id`. */
  lemma {:induction false} InsideIff(cap: nat, rows: Rows, id: nat, a: nat, b: nat)
    requires WellFormed(cap, rows) && id in rows && a in rows && b in rows && AtOrBelow(cap, rows, a, id)
    ensures Lineage(cap, rows, id) <= Lineage(cap, rows, a)
    ensures b in [id] + Lineage(cap, rows, a)[|Lineage(cap, rows, id)|..]
       <==> AtOrBelow(cap, rows, b, id) && AtOrBelow(cap, rows, a, b)
  {
    LineagePrefix(cap, rows, a, id);
    LineagePrefix(cap, rows, a, b);
    LineagePrefix(cap, rows, b, id);
    var src, own, mid := Lineage(cap, rows, id), Lineage(cap, rows, a), Lineage(cap, rows, b);
    LineageDistinct(rows, own);
    assert Cached(rows, id, src) && Cached(rows, b, mid);
    if b in own { InTail(own, src, mid, b); }
  }

  /** On a chain: the node ending `mid` stands at or after the end of `src` exactly when `src` leads to it. */
  lemma {:induction false} InTail(own: seq<nat>, src: seq<nat>, mid: seq<nat>, b: nat)
    requires Distinct(own) && src != [] && src <= own && mid != [] && mid <= own && mid[|mid| - 1] == b
    ensures b in [src[|src| - 1]] + own[|src|..] <==> src <= mid
  {
    var n, m := |src|, |mid|;
    assert own[m - 1] == b && own[n - 1] == src[n - 1];
    if b in [src[n - 1]] + own[n..] {
      var i :| n - 1 <= i < |own| && own[i] == b;
      assert i == m - 1;
    }
    if src <= mid && m > n { assert own[n..][m - 1 - n] == b; }
  }

  /** A move keeps the rule exactly when no key is defined on both sides of the edge it creates. */
  lemma {:induction false} MoveKeepsRuleIff(cap: nat, rows: Rows, defs: Definitions, id: nat, parentId: Option<nat>,
                                            sortOrder: Option<int>)
    requires WellFormed(cap, rows) && Live(rows, id) && (parentId.Some? ==> Live(rows, parentId.value))
    requires Attached(rows, defs)
    requires Refusal(cap, rows, id, parentId) == None && OneKeyPerLineage(cap, rows, defs)
    ensures WellFormed(cap, MoveRows(rows, id, parentId, sortOrder))
    ensures OneKeyPerLineage(cap, MoveRows(rows, id, parentId, sortOrder), defs)
       <==> !Collides(cap, rows, defs, id, parentId)
  {
    var after := MoveRows(rows, id, parentId, sortOrder);
    MoveDecision(cap, rows, id, parentId);
    MoveRecomputes(cap, rows, id, parentId, sortOrder);
    if Collides(cap, rows, defs, id, parentId) {
      CollisionBreaksRule(cap, rows, defs, id, parentId, sortOrder);
    } else {
      MoveKeepsRule(cap, rows, defs, id, parentId, sortOrder);
    }
  }

  /** Definitions the move brings onto one lineage. */
  lemma {:induction false} CollisionBreaksRule(cap: nat, rows: Rows, defs: Definitions, id: nat, parentId: Option<nat>,
                                               sortOrder: Option<int>)
    requires WellFormed(cap, rows) && Live(rows, id) && (parentId.Some? ==> Live(rows, parentId.value))
    requires Attached(rows, defs)
    requires Refusal(cap, rows, id, parentId) == None && OneKeyPerLineage(cap, rows, defs)
    requires Collides(cap, rows, defs, id, parentId)
    requires WellFormed(cap, MoveRows(rows, id, parentId, sortOrder))
    ensures !OneKeyPerLineage(cap, MoveRows(rows, id, parentId, sortOrder), defs)
  {
    var after := MoveRows(rows, id, parentId, sortOrder);
    var d, e :| d in defs && e in defs && !defs[d].deleted && !defs[e].deleted && defs[d].key == defs[e].key
                && AtOrBelow(cap, rows, defs[d].categoryId, id)
                && AtOrBelow(cap, rows, parentId.value, defs[e].categoryId);
    MoveDecision(cap, rows, id, parentId);
    MovedBelow(cap, rows, id, parentId, sortOrder, defs[d].categoryId, defs[e].categoryId);
    AcrossDiffers(cap, rows, id, parentId.value, defs[d].categoryId, defs[e].categoryId);
    assert SameLineage(cap, after, defs[d].categoryId, defs[e].categoryId);
  }

  lemma {:induction false} MoveKeepsRule(cap: nat, rows: Rows, defs: Definitions, id: nat, parentId: Option<nat>,
                                         sortOrder: Option<int>)
    requires WellFormed(cap, rows) && Live(rows, id) && (parentId.Some? ==> Live(rows, parentId.value))
    requires Attached(rows, defs)
    requires Refusal(cap, rows, id, parentId) == None && OneKeyPerLineage(cap, rows, defs)
    requires !Collides(cap, rows, defs, id, parentId)
    requires WellFormed(cap, MoveRows(rows, id, parentId, sortOrder))
    ensures OneKeyPerLineage(cap, MoveRows(rows, id, parentId, sortOrder), defs)
  {
    var after := MoveRows(rows, id, parentId, sortOrder);
    forall d, e | d in defs && e in defs && d != e && !defs[d].deleted && !defs[e].deleted && defs[d].key == defs[e].key
      ensures !SameLineage(cap, after, defs[d].categoryId, defs[e].categoryId)
    {
      assert !SameLineage(cap, rows, defs[d].categoryId, defs[e].categoryId);
      MovedBelow(cap, rows, id, parentId, sortOrder, defs[d].categoryId, defs[e].categoryId);
      MovedBelow(cap, rows, id, parentId, sortOrder, defs[e].categoryId, defs[d].categoryId);
    }
  }

  /** A node inside the moved subtree is not on the lineage of a destination outside it. */
  lemma {:induction false} AcrossDiffers(cap: nat, rows: Rows, id: nat, p: nat, inside: nat, above: nat)
    requires WellFormed(cap, rows) && id in rows && p in rows && inside in rows && above in rows
    requires !AtOrBelow(cap, rows, p, id) && AtOrBelow(cap, rows, inside, id) && AtOrBelow(cap, rows, p, above)
    ensures inside != above
  {
    LineagePrefix(cap, rows, p, above);
    LineagePrefix(cap, rows, above, id);
    LineagePrefix(cap, rows, p, id);
  }
}
