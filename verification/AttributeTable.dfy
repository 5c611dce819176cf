/** The attribute table of a product page: the definitions of the keys a product holds, the nearest one each. */
module AttributeTable {
  import opened Prelude
  import opened Texts
  import opened Sorting
  import opened AttributeInheritance

  /** A definition with the length of its owner's path, which is what the query orders by. */
  datatype Located = Located(row: Attribute, length: nat)

  datatype Line = Line(key: string, title: string, value: string)

  /** The query's order: deepest owner first, then sort order, then key. */
  predicate NearestFirst(a: Located, b: Located) {
    if a.length != b.length then a.length > b.length
    else if a.row.sortOrder != b.row.sortOrder then a.row.sortOrder < b.row.sortOrder
    else TextLeq(a.row.key, b.row.key)
  }

  /** The table's order. */
  predicate ByPlace(a: Attribute, b: Attribute) {
    if a.sortOrder != b.sortOrder then a.sortOrder < b.sortOrder else TextLeq(a.key, b.key)
  }

  predicate PlacedBefore(a: Attribute, b: Attribute) { ByPlace(a, b) && a.key != b.key }

  /** The first definition of `key` in the list. */
  function FindKey(rows: seq<Located>, key: string): Option<Attribute> {
    if rows == [] then None
    else if rows[0].row.key == key then Some(rows[0].row)
    else FindKey(rows[1..], key)
  }

  /** What the table must show: each held key's winner, by sort order and key, with the product's value. */
  ghost predicate IsTable(attributes: seq<Attribute>, lineage: seq<nat>, held: map<string, string>, out: seq<Line>) {
    exists picks :: IsSelection(attributes, lineage, held, picks) && Lines(picks, held, out)
  }

  ghost predicate IsSelection(attributes: seq<Attribute>, lineage: seq<nat>, held: map<string, string>,
                              picks: seq<Attribute>) {
    && StrictlySorted(PlacedBefore, picks)
    && forall a :: a in picks <==> Wins(attributes, lineage, a) && a.key in held
  }

  ghost predicate Lines(picks: seq<Attribute>, held: map<string, string>, out: seq<Line>) {
    && |out| == |picks|
    && forall i :: 0 <= i < |out| ==> picks[i].key in held
                                      && out[i] == Line(picks[i].key, picks[i].title, held[picks[i].key])
  }

  ghost predicate OnePerCategory(attributes: seq<Attribute>) {
    forall a, b :: a in attributes && b in attributes && a.key == b.key && a.categoryId == b.categoryId ==> a == b
  }

  /** `rows` is the query's answer: the lineage's definitions of held keys, the deepest owner first. */
  ghost predicate IsQuery(attributes: seq<Attribute>, lineage: seq<nat>, held: map<string, string>,
                          rows: seq<Located>) {
    && Sorted(NearestFirst, rows)
    && (forall i :: 0 <= i < |rows| ==> Candidate(attributes, lineage, rows[i].row) && rows[i].row.key in held)
    && (forall a :: Candidate(attributes, lineage, a) && a.key in held ==> Occurs(rows, a))
    && (forall i, j :: 0 <= i < |rows| && 0 <= j < |rows| ==> Deeper(lineage, rows[i], rows[j]))
  }

  /** The lower of two owners on the lineage has the longer path. */
  ghost predicate Deeper(lineage: seq<nat>, a: Located, b: Located) {
    a.row.categoryId in lineage && b.row.categoryId in lineage
    && LevelOf(lineage, a.row.categoryId) > LevelOf(lineage, b.row.categoryId)
    ==> a.length > b.length
  }

  ghost predicate Occurs(rows: seq<Located>, a: Attribute) { exists i :: 0 <= i < |rows| && rows[i].row == a }

  // ---------------------------------------------------------------- lemmas

  lemma {:induction false} NearestFirstTotal()
    ensures TotalPreorder(NearestFirst)
  {
    forall a, b ensures NearestFirst(a, b) || NearestFirst(b, a) { TextLeqTotal(a.row.key, b.row.key); }
    forall a, b, c | NearestFirst(a, b) && NearestFirst(b, c) ensures NearestFirst(a, c) {
      if TextLeq(a.row.key, b.row.key) && TextLeq(b.row.key, c.row.key) {
        TextLeqTransitive(a.row.key, b.row.key, c.row.key);
      }
    }
  }

  lemma {:induction false} ByPlaceTotal()
    ensures TotalPreorder(ByPlace)
  {
    forall a, b ensures ByPlace(a, b) || ByPlace(b, a) { TextLeqTotal(a.key, b.key); }
    forall a, b, c | ByPlace(a, b) && ByPlace(b, c) ensures ByPlace(a, c) {
      if TextLeq(a.key, b.key) && TextLeq(b.key, c.key) { TextLeqTransitive(a.key, b.key, c.key); }
    }
  }

  lemma {:induction false} FindKeyNext(rows: seq<Located>, n: nat, key: string)
    requires n < |rows|
    ensures FindKey(rows[..n + 1], key) == if FindKey(rows[..n], key).Some? then FindKey(rows[..n], key)
                                           else if rows[n].row.key == key then Some(rows[n].row) else None
  {
    var shorter, longer := rows[..n], rows[..n + 1];
    if n == 0 {
      assert longer == [rows[0]] && longer[1..] == [];
    } else {
      FindKeyNext(rows[1..], n - 1, key);
      assert longer[1..] == rows[1..][..n] && shorter[1..] == rows[1..][..n - 1];
    }
  }

  lemma {:induction false} FindKeyFirst(rows: seq<Located>, key: string)
    ensures FindKey(rows, key).None? ==> forall i :: 0 <= i < |rows| ==> rows[i].row.key != key
    ensures FindKey(rows, key).Some? ==>
              exists i :: 0 <= i < |rows| && rows[i].row == FindKey(rows, key).value && rows[i].row.key == key
                          && forall j :: 0 <= j < i ==> rows[j].row.key != key
  {
    if rows != [] && rows[0].row.key != key {
      var t := rows[1..];
      FindKeyFirst(t, key);
      if FindKey(t, key).Some? {
        var i :| 0 <= i < |t| && t[i].row == FindKey(t, key).value && t[i].row.key == key
                 && forall j :: 0 <= j < i ==> t[j].row.key != key;
        var k := i + 1;
        assert rows[k].row == FindKey(rows, key).value;
        assert forall j :: 0 < j < k ==> rows[j] == t[j - 1];
      }
    }
  }

  /** The first row of a key in the query's order is owned nearest. */
  lemma {:induction false} FirstIsNearest(attributes: seq<Attribute>, lineage: seq<nat>, held: map<string, string>,
                                          rows: seq<Located>, i: nat, other: Attribute)
    requires IsQuery(attributes, lineage, held, rows) && i < |rows| && rows[i].row.key in held
    requires forall j :: 0 <= j < i ==> rows[j].row.key != rows[i].row.key
    requires Candidate(attributes, lineage, other) && other.key == rows[i].row.key
    ensures LevelOf(lineage, other.categoryId) <= LevelOf(lineage, rows[i].row.categoryId)
  {
    assert Occurs(rows, other);
    var j :| 0 <= j < |rows| && rows[j].row == other;
    assert j >= i;
    assert j == i || NearestFirst(rows[i], rows[j]);
    assert Deeper(lineage, rows[j], rows[i]);
  }

  /** The row found first for a held key is the one the resolver picks. */
  lemma {:induction false} FoundIsWinner(attributes: seq<Attribute>, lineage: seq<nat>, held: map<string, string>,
                                         rows: seq<Located>, key: string)
    requires OnePerCategory(attributes) && IsQuery(attributes, lineage, held, rows)
    ensures FindKey(rows, key).Some? ==>
                var a := FindKey(rows, key).value; a.key == key && key in held && Wins(attributes, lineage, a)
  {
    FindKeyFirst(rows, key);
    if FindKey(rows, key).Some? {
      var i :| 0 <= i < |rows| && rows[i].row == FindKey(rows, key).value && rows[i].row.key == key
               && forall j :: 0 <= j < i ==> rows[j].row.key != key;
      var a := rows[i].row;
      assert Candidate(attributes, lineage, a);
      forall other | Candidate(attributes, lineage, other) && other.key == key
        ensures LevelOf(lineage, other.categoryId) <= LevelOf(lineage, a.categoryId)
      {
        FirstIsNearest(attributes, lineage, held, rows, i, other);
      }
      NearestWins(attributes, lineage, a);
    }
  }

  /** Under one definition of a key per category, the first row of each held key is exactly its winner. */
  lemma {:induction false} FindKeyIffWins(attributes: seq<Attribute>, lineage: seq<nat>, held: map<string, string>,
                                          rows: seq<Located>, a: Attribute)
    requires OnePerCategory(attributes) && IsQuery(attributes, lineage, held, rows)
    ensures FindKey(rows, a.key) == Some(a) <==> Wins(attributes, lineage, a) && a.key in held
  {
    FoundIsWinner(attributes, lineage, held, rows, a.key);
    if Wins(attributes, lineage, a) && a.key in held {
      FindKeyFirst(rows, a.key);
      assert Occurs(rows, a);
      WinnerUnique(attributes, lineage, a, FindKey(rows, a.key).value);
    }
  }

  lemma {:induction false} TableUnique(attributes: seq<Attribute>, lineage: seq<nat>, held: map<string, string>,
                                       out: seq<Line>, out': seq<Line>)
    requires IsTable(attributes, lineage, held, out) && IsTable(attributes, lineage, held, out')
    ensures out == out'
  {
    var picks :| IsSelection(attributes, lineage, held, picks) && Lines(picks, held, out);
    var picks' :| IsSelection(attributes, lineage, held, picks') && Lines(picks', held, out');
    forall a, b | PlacedBefore(a, b) ensures !PlacedBefore(b, a) {
      if ByPlace(b, a) { TextLeqAntisymmetric(a.key, b.key); }
    }
    StrictlySortedUnique(PlacedBefore, picks, picks');
  }

  // ----------------------------------------------------------------- loops

  /** The first row of each key, with the keys in the order they were met. */
  method Nearest(rows: seq<Located>) returns (nearest: map<string, Attribute>, keys: seq<string>)
    ensures forall key :: key in nearest <==> FindKey(rows, key).Some?
    ensures forall key :: key in nearest ==> FindKey(rows, key) == Some(nearest[key])
    ensures Distinct(keys) && forall key :: key in keys <==> key in nearest
  {
    nearest, keys := map[], [];
    for n := 0 to |rows|
      invariant forall key :: key in nearest <==> FindKey(rows[..n], key).Some?
      invariant forall key :: key in nearest ==> FindKey(rows[..n], key) == Some(nearest[key])
      invariant Distinct(keys) && forall key :: key in keys <==> key in nearest
    {
      forall key { FindKeyNext(rows, n, key); }
      var row := rows[n].row;
      if row.key in nearest { continue; }
      keys := keys + [row.key];
      nearest := nearest[row.key := row];
    }
    assert rows[..|rows|] == rows;
  }

  method Build(rows: seq<Located>, held: map<string, string>, ghost attributes: seq<Attribute>, ghost lineage: seq<nat>)
    returns (out: seq<Line>)
    requires OnePerCategory(attributes) && IsQuery(attributes, lineage, held, rows)
    ensures IsTable(attributes, lineage, held, out)
  {
    var nearest, keys := Nearest(rows);
    var entries := seq(|keys|, i requires 0 <= i < |keys| => nearest[keys[i]]);
    var picks := Sort(ByPlace, entries);
    SelectionOf(attributes, lineage, held, rows, nearest, keys, entries);
    out := ListLines(picks, held);
  }

  method ListLines(picks: seq<Attribute>, held: map<string, string>) returns (out: seq<Line>)
    requires forall a :: a in picks ==> a.key in held
    ensures Lines(picks, held, out)
  {
    out := [];
    for i := 0 to |picks|
      invariant Lines(picks[..i], held, out)
    {
      assert picks[i] in picks;
      if picks[i].key in held {
        out := out + [Line(picks[i].key, picks[i].title, held[picks[i].key])];
      }
    }
    assert picks[..|picks|] == picks;
  }

  lemma {:induction false} EntryMembers(rows: seq<Located>, nearest: map<string, Attribute>, keys: seq<string>,
                                        entries: seq<Attribute>, a: Attribute)
    requires forall key :: key in nearest <==> FindKey(rows, key).Some?
    requires forall key :: key in nearest ==> FindKey(rows, key) == Some(nearest[key])
    requires forall key :: key in keys <==> key in nearest
    requires |entries| == |keys| && forall i :: 0 <= i < |keys| ==> entries[i] == nearest[keys[i]]
    ensures a in entries <==> FindKey(rows, a.key) == Some(a)
  {
    if a in entries {
      var i :| 0 <= i < |entries| && entries[i] == a;
      assert keys[i] in nearest;
      FindKeyFirst(rows, keys[i]);
    }
    if FindKey(rows, a.key) == Some(a) {
      assert a.key in keys;
      var i :| 0 <= i < |keys| && keys[i] == a.key;
      assert entries[i] == a;
    }
  }

  lemma {:induction false} SelectionOf(attributes: seq<Attribute>, lineage: seq<nat>, held: map<string, string>,
                                       rows: seq<Located>,
                    nearest: map<string, Attribute>, keys: seq<string>, entries: seq<Attribute>)
    requires OnePerCategory(attributes) && IsQuery(attributes, lineage, held, rows)
    requires forall key :: key in nearest <==> FindKey(rows, key).Some?
    requires forall key :: key in nearest ==> FindKey(rows, key) == Some(nearest[key])
    requires Distinct(keys) && forall key :: key in keys <==> key in nearest
    requires |entries| == |keys| && forall i :: 0 <= i < |keys| ==> entries[i] == nearest[keys[i]]
    ensures IsSelection(attributes, lineage, held, Sort(ByPlace, entries))
  {
    var picks := Sort(ByPlace, entries);
    ByPlaceTotal();
    SortSorted(ByPlace, entries);
    SortMembers(ByPlace, entries);
    forall a ensures a in picks <==> Wins(attributes, lineage, a) && a.key in held {
      EntryMembers(rows, nearest, keys, entries, a);
      FindKeyIffWins(attributes, lineage, held, rows, a);
    }
    forall i | 0 <= i < |keys| ensures entries[i].key == keys[i] {
      assert keys[i] in nearest;
      FindKeyFirst(rows, keys[i]);
    }
    SortDistinct(ByPlace, entries);
    forall i, j | 0 <= i < j < |picks| ensures PlacedBefore(picks[i], picks[j]) {
      assert picks[i] in picks && picks[j] in picks;
      if picks[i].key == picks[j].key { WinnerUnique(attributes, lineage, picks[i], picks[j]); }
    }
  }

  /**
   * The table in its columns: a line for each winner of a held key, in order of position and then key, no other line.
   */
  lemma {:induction false} TableMeans(attributes: seq<Attribute>, lineage: seq<nat>, held: map<string, string>,
                                      out: seq<Line>)
    returns (picks: seq<Attribute>)
    requires IsTable(attributes, lineage, held, out)
    ensures |picks| == |out| && forall a :: a in picks <==> Wins(attributes, lineage, a) && a.key in held
    ensures forall i :: 0 <= i < |out| ==>
              picks[i].key in held && out[i].key == picks[i].key && out[i].title == picks[i].title
              && out[i].value == held[picks[i].key]
    ensures forall i, j :: 0 <= i < j < |out| ==>
              && picks[i].key != picks[j].key
              && (picks[i].sortOrder < picks[j].sortOrder
                  || (picks[i].sortOrder == picks[j].sortOrder && TextLeq(picks[i].key, picks[j].key)))
  {
    picks :| IsSelection(attributes, lineage, held, picks) && Lines(picks, held, out);
    forall i, j | 0 <= i < j < |out|
      ensures picks[i].key != picks[j].key
      ensures picks[i].sortOrder < picks[j].sortOrder
              || (picks[i].sortOrder == picks[j].sortOrder && TextLeq(picks[i].key, picks[j].key))
    {
      assert PlacedBefore(picks[i], picks[j]);
    }
  }
}
