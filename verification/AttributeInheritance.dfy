/** Which attribute definitions apply to a category: its own and its ancestors', the nearest winning. */
module AttributeInheritance {
  import opened Prelude
  import opened Texts
  import opened Sorting
  import opened CategoryPath

  datatype Attribute = Attribute(id: nat, categoryId: nat, key: string, title: string, sortOrder: int)

  /** One line of the answer; `inherited` when a category above the target owns the definition. */
  datatype Inherited = Inherited(attribute: Attribute, inherited: bool)

  /** A candidate with its place in the lineage: 0 for the root. */
  datatype Ranked = Ranked(row: Attribute, level: nat)

  // -------------------------------------------------- the ids in a path

  /** `text.split(sep)`. */
  function Split(text: string, sep: char): (parts: seq<string>)
    ensures |parts| > 0
  {
    if text == "" then [""]
    else
      var parts := Split(text[1..], sep);
      if text[0] == sep then [""] + parts else [[text[0]] + parts[0]] + parts[1..]
  }

  function ParseDec(s: string): nat
    requires IsDigits(s)
  {
    if s == "" then 0 else 10 * ParseDec(s[..|s| - 1]) + (s[|s| - 1] as int - '0' as int)
  }

  ghost predicate PathText(path: string) { forall i :: 0 <= i < |path| ==> '0' <= path[i] <= '9' || path[i] == '/' }

  ghost predicate AllDigits(parts: seq<string>) { forall i :: 0 <= i < |parts| ==> IsDigits(parts[i]) }

  lemma {:induction false} SplitDigits(path: string)
    requires PathText(path)
    ensures AllDigits(Split(path, '/'))
  {
    if path != "" { SplitDigits(path[1..]); }
  }

  /** The non-empty parts, as numbers. */
  function Numbers(parts: seq<string>): seq<nat>
    requires AllDigits(parts)
  {
    if parts == [] then []
    else (if parts[0] == "" then [] else [ParseDec(parts[0])]) + Numbers(parts[1..])
  }

  /** A path split at its slashes and read back as numbers. */
  function AncestorIdsOf(path: string): seq<nat>
    requires PathText(path)
  {
    SplitDigits(path);
    Numbers(Split(path, '/'))
  }

  lemma {:induction false} ParseDecInverse(n: nat)
    ensures ParseDec(Dec(n)) == n
  {
    var s := Dec(n);
    if n < 10 {
      assert s == [Digit(n)] && s[..0] == "";
    } else {
      ParseDecInverse(n / 10);
      assert s[..|s| - 1] == Dec(n / 10);
    }
  }

  lemma {:induction false} SplitSegment(head: string, rest: string, sep: char)
    requires sep !in head
    ensures Split(head + [sep] + rest, sep) == [head] + Split(rest, sep)
  {
    var text := head + [sep] + rest;
    if head == "" {
      assert text[1..] == rest;
    } else {
      SplitSegment(head[1..], rest, sep);
      assert text[1..] == head[1..] + [sep] + rest;
      assert [head[0]] + head[1..] == head;
    }
  }

  lemma {:induction false} SplitFirst(ids: seq<nat>)
    requires ids != []
    ensures Split(Segments(ids), '/') == [Dec(ids[0])] + Split(Segments(ids[1..]), '/')
  {
    DecHasNoSlash(ids[0]);
    SplitSegment(Dec(ids[0]), Segments(ids[1..]), '/');
  }

  lemma {:induction false} NumbersOfSegments(ids: seq<nat>)
    ensures PathText(Segments(ids)) && AllDigits(Split(Segments(ids), '/'))
    ensures Numbers(Split(Segments(ids), '/')) == ids
  {
    SegmentsPlain(ids);
    SplitDigits(Segments(ids));
    if ids == [] {
      assert Split("", '/') == [""] && Numbers([""]) == [] + Numbers([""][1..]);
    } else {
      NumbersOfSegments(ids[1..]);
      SplitFirst(ids);
      ParseDecInverse(ids[0]);
      assert Split(Segments(ids), '/')[1..] == Split(Segments(ids[1..]), '/');
      assert ids == [ids[0]] + ids[1..];
    }
  }

  /** The path of a chain reads back as that chain, so an id's position is its depth minus one. */
  lemma {:induction false} AncestorIdsInverse(ids: seq<nat>)
    ensures PathText(Render(ids)) && AncestorIdsOf(Render(ids)) == ids
  {
    NumbersOfSegments(ids);
    var text := Render(ids);
    assert text[1..] == Segments(ids);
    SplitDigits(text);
    var parts := Split(text, '/');
    assert parts == [""] + Split(Segments(ids), '/');
    assert parts[1..] == Split(Segments(ids), '/');
  }

  // ------------------------------------------------------------- resolution

  /** The level `new Map(lineage.map(...))` gives a category: a later entry replaces an earlier one. */
  function LevelOf(lineage: seq<nat>, categoryId: nat): (level: nat)
    requires categoryId in lineage
    ensures level < |lineage| && lineage[level] == categoryId
    ensures forall i :: level < i < |lineage| ==> lineage[i] != categoryId
  {
    var last := |lineage| - 1;
    if lineage[last] == categoryId then last else LevelOf(lineage[..last], categoryId)
  }

  predicate Beats(candidate: Ranked, held: Ranked) {
    if candidate.level != held.level then candidate.level > held.level
    else if candidate.row.sortOrder != held.row.sortOrder then candidate.row.sortOrder < held.row.sortOrder
    else candidate.row.id < held.row.id
  }

  /** How winners are listed: higher owners before lower ones, one owner's by position, ties by id. */
  predicate Displays(left: Ranked, right: Ranked) {
    if left.level != right.level then left.level < right.level
    else if left.row.sortOrder != right.row.sortOrder then left.row.sortOrder < right.row.sortOrder
    else left.row.id <= right.row.id
  }

  /** Ids are keys: two rows with one id are one row. */
  ghost predicate IdsIdentify(rows: seq<Attribute>) {
    forall a, b :: a in rows && b in rows && a.id == b.id ==> a == b
  }

  ghost predicate Candidate(rows: seq<Attribute>, lineage: seq<nat>, row: Attribute) {
    row in rows && row.categoryId in lineage
  }

  function Rank(lineage: seq<nat>, row: Attribute): Ranked
    requires row.categoryId in lineage
  {
    Ranked(row, LevelOf(lineage, row.categoryId))
  }

  /** `row` answers for its key: no other definition of the key in the lineage beats it. */
  ghost predicate Wins(rows: seq<Attribute>, lineage: seq<nat>, row: Attribute) {
    && Candidate(rows, lineage, row)
    && forall other :: Candidate(rows, lineage, other) && other.key == row.key && other != row ==>
                         Beats(Rank(lineage, row), Rank(lineage, other))
  }

  /** Strictly before, in display order. */
  predicate Precedes(left: Ranked, right: Ranked) { Displays(left, right) && left.row.id != right.row.id }

  /** `ranked` lists exactly the winners, each once, in display order. */
  ghost predicate IsRanking(rows: seq<Attribute>, lineage: seq<nat>, ranked: seq<Ranked>) {
    && StrictlySorted(Precedes, ranked)
    && forall r :: r in ranked <==> Wins(rows, lineage, r.row) && r == Rank(lineage, r.row)
  }

  function Present(lineage: seq<nat>, ranked: seq<Ranked>): (out: seq<Inherited>)
    ensures |out| == |ranked|
  {
    seq(|ranked|, i requires 0 <= i < |ranked| => Inherited(ranked[i].row, ranked[i].level < |lineage| - 1))
  }

  /** The winners in display order, each marked by whether its owner is above the target. */
  ghost predicate IsResolution(rows: seq<Attribute>, lineage: seq<nat>, out: seq<Inherited>) {
    exists ranked :: IsRanking(rows, lineage, ranked) && out == Present(lineage, ranked)
  }

  // --------------------------------------------------------------- the loop

  /** After `n` rows: one entry per key seen in the lineage, holding the best definition so far. */
  ghost predicate Tallied(rows: seq<Attribute>, n: nat, lineage: seq<nat>, winners: map<string, Ranked>)
    requires n <= |rows|
  {
    && (forall key :: key in winners ==> winners[key].row.key == key && Wins(rows[..n], lineage, winners[key].row)
                                         && winners[key] == Rank(lineage, winners[key].row))
    && (forall row :: Candidate(rows[..n], lineage, row) ==> row.key in winners)
  }

  lemma {:induction false} PrefixCandidates(rows: seq<Attribute>, n: nat, lineage: seq<nat>, row: Attribute)
    requires n < |rows|
    ensures Candidate(rows[..n + 1], lineage, row)
       <==> Candidate(rows[..n], lineage, row) || (row == rows[n] && row.categoryId in lineage)
  {
    assert rows[..n + 1] == rows[..n] + [rows[n]];
  }

  /** The tally with one more row: a definition on the lineage that beats what is held of its key replaces it. */
  function Tally(winners: map<string, Ranked>, lineage: seq<nat>, row: Attribute): map<string, Ranked> {
    if row.categoryId !in lineage then winners
    else if row.key !in winners || Beats(Rank(lineage, row), winners[row.key])
    then winners[row.key := Rank(lineage, row)]
    else winners
  }

  /** What the tally holds of a key wins over the rows before, and over the new one. */
  lemma {:induction false} StillBeats(rows: seq<Attribute>, n: nat, lineage: seq<nat>, winners: map<string, Ranked>,
                                      key: string, other: Attribute)
    requires n < |rows| && IdsIdentify(rows) && Tallied(rows, n, lineage, winners)
    requires key in Tally(winners, lineage, rows[n])
    requires Candidate(rows[..n + 1], lineage, other) && other.key == key
    requires other != Tally(winners, lineage, rows[n])[key].row
    requires Candidate(rows[..n + 1], lineage, Tally(winners, lineage, rows[n])[key].row)
    ensures Beats(Tally(winners, lineage, rows[n])[key], Rank(lineage, other))
  {
    var best := Tally(winners, lineage, rows[n])[key].row;
    PrefixCandidates(rows, n, lineage, other);
    assert other in rows && best in rows && other.id != best.id;
    if best == rows[n] && key in winners { assert Wins(rows[..n], lineage, winners[key].row); }
  }

  lemma {:induction false} TallyHolds(rows: seq<Attribute>, n: nat, lineage: seq<nat>, winners: map<string, Ranked>,
                                      key: string)
    requires n < |rows| && Tallied(rows, n, lineage, winners) && key in Tally(winners, lineage, rows[n])
    ensures var held := Tally(winners, lineage, rows[n])[key];
            held.row.key == key && held == Rank(lineage, held.row) && Candidate(rows[..n + 1], lineage, held.row)
  {
    PrefixCandidates(rows, n, lineage, Tally(winners, lineage, rows[n])[key].row);
  }

  lemma {:induction false} TallyCovers(rows: seq<Attribute>, n: nat, lineage: seq<nat>, winners: map<string, Ranked>,
                                       row: Attribute)
    requires n < |rows| && Tallied(rows, n, lineage, winners) && Candidate(rows[..n + 1], lineage, row)
    ensures row.key in Tally(winners, lineage, rows[n])
  {
    PrefixCandidates(rows, n, lineage, row);
  }

  lemma {:induction false} TallyNext(rows: seq<Attribute>, n: nat, lineage: seq<nat>, winners: map<string, Ranked>)
    requires n < |rows| && IdsIdentify(rows) && Tallied(rows, n, lineage, winners)
    ensures Tallied(rows, n + 1, lineage, Tally(winners, lineage, rows[n]))
  {
    var after := Tally(winners, lineage, rows[n]);
    forall row | Candidate(rows[..n + 1], lineage, row) ensures row.key in after {
      TallyCovers(rows, n, lineage, winners, row);
    }
    forall key | key in after
      ensures after[key].row.key == key && after[key] == Rank(lineage, after[key].row)
      ensures Wins(rows[..n + 1], lineage, after[key].row)
    {
      TallyHolds(rows, n, lineage, winners, key);
      forall other | Candidate(rows[..n + 1], lineage, other) && other.key == key && other != after[key].row
        ensures Beats(Rank(lineage, after[key].row), Rank(lineage, other))
      {
        StillBeats(rows, n, lineage, winners, key, other);
      }
    }
  }

  method Winners(rows: seq<Attribute>, lineage: seq<nat>) returns (winners: map<string, Ranked>, keys: seq<string>)
    requires IdsIdentify(rows)
    ensures Tallied(rows, |rows|, lineage, winners)
    ensures Distinct(keys) && forall key :: key in keys <==> key in winners
  {
    winners, keys := map[], [];
    for n := 0 to |rows|
      invariant Tallied(rows, n, lineage, winners)
      invariant Distinct(keys) && forall key :: key in keys <==> key in winners
    {
      TallyNext(rows, n, lineage, winners);
      var row := rows[n];
      if row.categoryId !in lineage { continue; }
      var candidate := Rank(lineage, row);
      if row.key !in winners {
        keys := keys + [row.key];
        winners := winners[row.key := candidate];
      } else if Beats(candidate, winners[row.key]) {
        winners := winners[row.key := candidate];
      }
    }
  }

  lemma {:induction false} DisplaysTotal()
    ensures TotalPreorder(Displays)
  {
  }

  method ResolveEffectiveAttributes(rows: seq<Attribute>, lineage: seq<nat>) returns (out: seq<Inherited>)
    requires IdsIdentify(rows)
    ensures IsResolution(rows, lineage, out)
  {
    var winners, keys := Winners(rows, lineage);
    var values := seq(|keys|, i requires 0 <= i < |keys| => winners[keys[i]]);
    var ranked := Sort(Displays, values);
    SortedWinners(rows, lineage, winners, keys, values);
    out := Present(lineage, ranked);
  }

  lemma {:induction false} ValuesAreWinners(rows: seq<Attribute>, lineage: seq<nat>, winners: map<string, Ranked>,
                                            keys: seq<string>, values: seq<Ranked>, r: Ranked)
    requires Tallied(rows, |rows|, lineage, winners) && forall key :: key in keys <==> key in winners
    requires |values| == |keys| && forall i :: 0 <= i < |keys| ==> values[i] == winners[keys[i]]
    ensures r in values <==> Wins(rows, lineage, r.row) && r == Rank(lineage, r.row)
  {
    assert rows[..|rows|] == rows;
    if r in values {
      var k :| 0 <= k < |values| && values[k] == r;
      assert keys[k] in keys;
    }
    if Wins(rows, lineage, r.row) && r == Rank(lineage, r.row) {
      assert r.row.key in winners && r.row.key in keys;
      var k :| 0 <= k < |keys| && keys[k] == r.row.key;
      WinnerUnique(rows, lineage, r.row, winners[r.row.key].row);
      assert values[k] == r;
    }
  }

  lemma {:induction false} SortedWinners(rows: seq<Attribute>, lineage: seq<nat>, winners: map<string, Ranked>,
                                         keys: seq<string>, values: seq<Ranked>)
    requires IdsIdentify(rows) && Tallied(rows, |rows|, lineage, winners)
    requires Distinct(keys) && forall key :: key in keys <==> key in winners
    requires |values| == |keys| && forall i :: 0 <= i < |keys| ==> values[i] == winners[keys[i]]
    ensures IsRanking(rows, lineage, Sort(Displays, values))
  {
    var ranked := Sort(Displays, values);
    DisplaysTotal();
    SortSorted(Displays, values);
    SortMembers(Displays, values);
    forall r ensures r in ranked <==> Wins(rows, lineage, r.row) && r == Rank(lineage, r.row) {
      ValuesAreWinners(rows, lineage, winners, keys, values, r);
    }
    forall i, j | 0 <= i < j < |values| ensures values[i] != values[j] {
      assert keys[i] in winners && keys[j] in winners;
    }
    SortDistinct(Displays, values);
    forall i, j | 0 <= i < j < |ranked| ensures Precedes(ranked[i], ranked[j]) {
      assert ranked[i] in ranked && ranked[j] in ranked && ranked[i] != ranked[j];
      assert ranked[i].row in rows && ranked[j].row in rows;
    }
  }

  // -------------------------------------------------------------- the rules

  lemma {:induction false} WinnerUnique(rows: seq<Attribute>, lineage: seq<nat>, a: Attribute, b: Attribute)
    requires Wins(rows, lineage, a) && Wins(rows, lineage, b) && a.key == b.key
    ensures a == b
  {
  }

  /** The tally of all the rows, with the keys it holds. */
  lemma {:induction false} TallyAll(rows: seq<Attribute>, lineage: seq<nat>)
    returns (winners: map<string, Ranked>, keys: seq<string>)
    requires IdsIdentify(rows)
    ensures Tallied(rows, |rows|, lineage, winners)
    ensures Distinct(keys) && forall key :: key in keys <==> key in winners
  {
    winners, keys := map[], [];
    for n := 0 to |rows|
      invariant Tallied(rows, n, lineage, winners)
      invariant Distinct(keys) && forall key :: key in keys <==> key in winners
    {
      TallyNext(rows, n, lineage, winners);
      winners := Tally(winners, lineage, rows[n]);
      if rows[n].key in winners && rows[n].key !in keys { keys := keys + [rows[n].key]; }
    }
  }

  /** There is a resolution of any definitions along any lineage. */
  lemma {:induction false} ResolutionExists(rows: seq<Attribute>, lineage: seq<nat>) returns (out: seq<Inherited>)
    requires IdsIdentify(rows)
    ensures IsResolution(rows, lineage, out)
  {
    var winners, keys := TallyAll(rows, lineage);
    var values := seq(|keys|, i requires 0 <= i < |keys| => winners[keys[i]]);
    SortedWinners(rows, lineage, winners, keys, values);
    out := Present(lineage, Sort(Displays, values));
  }

  /** The answer is total: every key defined anywhere in the lineage has exactly one winner. */
  lemma {:induction false} EveryKeyAnswered(rows: seq<Attribute>, lineage: seq<nat>, row: Attribute)
    returns (winner: Attribute)
    requires IdsIdentify(rows) && Candidate(rows, lineage, row)
    ensures Wins(rows, lineage, winner) && winner.key == row.key
    ensures forall other :: Wins(rows, lineage, other) && other.key == row.key ==> other == winner
    ensures LevelOf(lineage, row.categoryId) <= LevelOf(lineage, winner.categoryId)
  {
    var winners, keys := TallyAll(rows, lineage);
    assert rows[..|rows|] == rows;
    winner := winners[row.key].row;
    forall other | Wins(rows, lineage, other) && other.key == row.key ensures other == winner {
      WinnerUnique(rows, lineage, other, winner);
    }
  }

  /** With one definition of a key per category, winning is being owned nearest to the target. */
  lemma {:induction false} NearestWins(rows: seq<Attribute>, lineage: seq<nat>, row: Attribute)
    requires Candidate(rows, lineage, row)
    requires forall a, b :: a in rows && b in rows && a.key == b.key && a.categoryId == b.categoryId ==> a == b
    ensures Wins(rows, lineage, row)
       <==> forall other :: Candidate(rows, lineage, other) && other.key == row.key ==>
                              LevelOf(lineage, other.categoryId) <= LevelOf(lineage, row.categoryId)
  {
    if forall other :: Candidate(rows, lineage, other) && other.key == row.key ==>
                         LevelOf(lineage, other.categoryId) <= LevelOf(lineage, row.categoryId) {
      forall other | Candidate(rows, lineage, other) && other.key == row.key && other != row
        ensures Beats(Rank(lineage, row), Rank(lineage, other))
      {
        assert lineage[LevelOf(lineage, other.categoryId)] == other.categoryId;
        assert lineage[LevelOf(lineage, row.categoryId)] == row.categoryId;
      }
    }
  }

  /** Two resolutions of the same definitions agree, however the rows were ordered or repeated. */
  lemma {:induction false} ResolutionUnique(rows: seq<Attribute>, rows': seq<Attribute>, lineage: seq<nat>,
                                            out: seq<Inherited>, out': seq<Inherited>)
    requires forall row :: row in rows <==> row in rows'
    requires IsResolution(rows, lineage, out) && IsResolution(rows', lineage, out')
    ensures out == out'
  {
    var ranked :| IsRanking(rows, lineage, ranked) && out == Present(lineage, ranked);
    var ranked' :| IsRanking(rows', lineage, ranked') && out' == Present(lineage, ranked');
    forall r: Ranked ensures r in ranked <==> r in ranked' {
      if Wins(rows, lineage, r.row) { SameCandidates(rows, rows', lineage, r.row); }
      if Wins(rows', lineage, r.row) { SameCandidates(rows', rows, lineage, r.row); }
    }
    StrictlySortedUnique(Precedes, ranked, ranked');
  }

  lemma {:induction false} SameCandidates(rows: seq<Attribute>, rows': seq<Attribute>, lineage: seq<nat>,
                                          row: Attribute)
    requires forall r :: r in rows <==> r in rows'
    requires Wins(rows, lineage, row)
    ensures Wins(rows', lineage, row)
  {
    forall other | Candidate(rows', lineage, other) && other.key == row.key && other != row
      ensures Beats(Rank(lineage, row), Rank(lineage, other))
    {
      assert Candidate(rows, lineage, other);
    }
  }

  /** The answer holds exactly the winners, and marks one inherited exactly when its owner is not the target. */
  lemma {:induction false} ResolutionMeans(rows: seq<Attribute>, lineage: seq<nat>, out: seq<Inherited>)
    requires IsResolution(rows, lineage, out) && lineage != []
    ensures forall a :: a in out <==> Wins(rows, lineage, a.attribute)
                                      && (a.inherited <==> a.attribute.categoryId != lineage[|lineage| - 1])
    ensures forall i, j :: 0 <= i < j < |out| ==> out[i].attribute.key != out[j].attribute.key
  {
    var ranked :| IsRanking(rows, lineage, ranked) && out == Present(lineage, ranked);
    forall a ensures a in out <==> Wins(rows, lineage, a.attribute)
                                   && (a.inherited <==> a.attribute.categoryId != lineage[|lineage| - 1])
    {
      if a in out {
        var i :| 0 <= i < |out| && out[i] == a;
        assert ranked[i] in ranked;
      }
      if Wins(rows, lineage, a.attribute) && (a.inherited <==> a.attribute.categoryId != lineage[|lineage| - 1]) {
        assert Rank(lineage, a.attribute) in ranked;
        var i :| 0 <= i < |ranked| && ranked[i] == Rank(lineage, a.attribute);
        assert out[i] == a;
      }
    }
    forall i, j | 0 <= i < j < |out| ensures out[i].attribute.key != out[j].attribute.key {
      assert ranked[i] in ranked && ranked[j] in ranked;
      assert Precedes(ranked[i], ranked[j]);
      if out[i].attribute.key == out[j].attribute.key {
        WinnerUnique(rows, lineage, out[i].attribute, out[j].attribute);
      }
    }
  }

  /** The answer is listed from the highest owner down, one owner's by position, then by id. */
  lemma {:induction false} ResolutionOrdered(rows: seq<Attribute>, lineage: seq<nat>, out: seq<Inherited>, i: nat,
                                             j: nat)
    requires IsResolution(rows, lineage, out) && i < j < |out|
    ensures out[i].attribute.categoryId in lineage && out[j].attribute.categoryId in lineage
    ensures var a, b := out[i].attribute, out[j].attribute;
            var x, y := LevelOf(lineage, a.categoryId), LevelOf(lineage, b.categoryId);
            x < y || (x == y && (a.sortOrder < b.sortOrder || (a.sortOrder == b.sortOrder && a.id < b.id)))
  {
    var ranked :| IsRanking(rows, lineage, ranked) && out == Present(lineage, ranked);
    assert ranked[i] in ranked && ranked[j] in ranked && Precedes(ranked[i], ranked[j]);
  }

  /** Of definitions of one key on one category, if there are several, the first by position and id wins. */
  lemma {:induction false} TieBroken(rows: seq<Attribute>, lineage: seq<nat>, row: Attribute, other: Attribute)
    requires Wins(rows, lineage, row) && Candidate(rows, lineage, other) && other.key == row.key && other != row
    requires other.categoryId == row.categoryId
    ensures row.sortOrder < other.sortOrder || (row.sortOrder == other.sortOrder && row.id < other.id)
  {
  }
}
