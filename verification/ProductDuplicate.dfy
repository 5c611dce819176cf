/** Turning a stored product back into a create request, and what planning and creating that request gives. */
module ProductDuplicate {
  import opened Prelude
  import opened Texts
  import opened Sorting
  import opened VariantGrid
  import opened VariantRules
  import opened ProductRows
  import opened ProductAxes
  import opened ProductVariants
  import opened ProductWrites
  import ProductResults

  // ------------------------------------------------------------------ name

  const DUPLICATE_NAME_SUFFIX := " (복사본)"

  function DuplicateName(cap: nat, name: string): string
    requires cap >= |DUPLICATE_NAME_SUFFIX|
  {
    var room := cap - |DUPLICATE_NAME_SUFFIX|;
    (if |name| > room then TrimEnd(name[..room]) else name) + DUPLICATE_NAME_SUFFIX
  }

  /** `head` is what is left of `name` cut at `room`, without the white space the cut leaves at the end. */
  ghost predicate IsCutTo(head: string, name: string, room: nat) {
    && |head| <= room <= |name| && head == name[..|head|]
    && (forall i :: |head| <= i < room ==> IsSpace(name[i]))
    && (head != "" ==> !IsSpace(head[|head| - 1]))
  }

  /** The copy's name always fits, ends with the suffix, and keeps the whole name when there is room. */
  lemma {:induction false} DuplicateNameFits(cap: nat, name: string)
    requires cap >= |DUPLICATE_NAME_SUFFIX|
    ensures var copy := DuplicateName(cap, name);
            && |copy| <= cap
            && |copy| >= |DUPLICATE_NAME_SUFFIX| && copy[|copy| - |DUPLICATE_NAME_SUFFIX|..] == " (복사본)"
            && copy[..|copy| - |DUPLICATE_NAME_SUFFIX|] <= name
            && (|name| + |DUPLICATE_NAME_SUFFIX| <= cap ==> copy == name + DUPLICATE_NAME_SUFFIX)
            && (|name| + |DUPLICATE_NAME_SUFFIX| > cap ==>
                  IsCutTo(copy[..|copy| - |DUPLICATE_NAME_SUFFIX|], name, cap - |DUPLICATE_NAME_SUFFIX|))
  {
    var copy := DuplicateName(cap, name);
    var head := copy[..|copy| - |DUPLICATE_NAME_SUFFIX|];
    assert copy == head + DUPLICATE_NAME_SUFFIX;
  }

  // ------------------------------------------------- the product as it is read

  datatype ShownOption = ShownOption(name: string, values: seq<Choice>)

  /** A variant as read: its ids come from a join, in no particular order. */
  datatype ShownVariant = ShownVariant(ids: seq<nat>, price: nat, listPrice: Option<nat>, limit: Option<nat>,
                                       isActive: bool)

  datatype Shown = Shown(name: string, options: seq<ShownOption>, variants: seq<ShownVariant>)

  /** `v` shows the row `row`, whatever order the ids were read in. */
  ghost predicate ShowsVariant(row: Variant, v: ShownVariant) {
    && multiset(v.ids) == multiset(row.choiceIds)
    && v.price == row.price && v.listPrice == row.listPrice && v.limit == row.limit && v.isActive == row.isActive
  }

  ghost predicate ShowsOptions(stored: seq<StoredAxis>, options: seq<ShownOption>) {
    && |options| == |stored|
    && forall i :: 0 <= i < |stored| ==> options[i] == ShownOption(stored[i].name, LiveChoices(stored[i]))
  }

  /** The live choices of every axis and the live variants, each once; `rows` are their positions. */
  ghost predicate Shows(p: Product, view: Shown, rows: seq<nat>) {
    && view.name == p.name && ShowsOptions(p.axes, view.options)
    && |rows| == |view.variants| && Distinct(rows)
    && (forall i :: 0 <= i < |rows| ==> rows[i] < |p.variants| && !p.variants[rows[i]].deleted
                                        && ShowsVariant(p.variants[rows[i]], view.variants[i]))
    && (forall k :: 0 <= k < |p.variants| && !p.variants[k].deleted ==> k in rows)
  }

  // ---------------------------------------------------------- the request

  /** The axis a choice belongs to, with its text. */
  datatype Placed = Placed(axis: nat, value: string)

  function PlacedOn(axis: nat, values: seq<Choice>): (entries: seq<(nat, Placed)>)
    ensures |entries| == |values|
  {
    seq(|values|, i requires 0 <= i < |values| => (values[i].id, Placed(axis, values[i].value)))
  }

  function Entries(options: seq<ShownOption>): seq<(nat, Placed)> {
    if options == [] then []
    else var last := |options| - 1; Entries(options[..last]) + PlacedOn(last, options[last].values)
  }

  /** `new Map(entries)`: a later entry of the same key replaces an earlier one. */
  function MapOf(entries: seq<(nat, Placed)>): map<nat, Placed> {
    if entries == [] then map[]
    else var last := |entries| - 1; MapOf(entries[..last])[entries[last].0 := entries[last].1]
  }

  predicate Named(choices: map<nat, Placed>, v: ShownVariant) { forall i :: 0 <= i < |v.ids| ==> v.ids[i] in choices }

  predicate ByAxis(a: Placed, b: Placed) { a.axis <= b.axis }

  function PlacesOf(choices: map<nat, Placed>, ids: seq<nat>): seq<Placed> {
    if ids == [] then [] else (if ids[0] in choices then [choices[ids[0]]] else []) + PlacesOf(choices, ids[1..])
  }

  function ValuesOf(places: seq<Placed>): (values: seq<string>)
    ensures |values| == |places|
  {
    seq(|places|, i requires 0 <= i < |places| => places[i].value)
  }

  /** A variant's combination by value, in axis order. */
  function CombinationOf(choices: map<nat, Placed>, v: ShownVariant): Combination {
    ValuesOf(Sort(ByAxis, PlacesOf(choices, v.ids)))
  }

  function OverrideOf(choices: map<nat, Placed>, v: ShownVariant): VariantOverride {
    Override(CombinationOf(choices, v), Detail(Some(v.price), Some(v.listPrice), None, Some(v.limit), Some(v.isActive)))
  }

  /** The variants whose every choice is still on an axis. */
  function Copied(choices: map<nat, Placed>, variants: seq<ShownVariant>): seq<ShownVariant> {
    if variants == [] then []
        else (if Named(choices, variants[0]) then [variants[0]] else []) + Copied(choices, variants[1..])
  }

  /** The lowest price being copied, or zero when there is none. */
  function CheapestOf(variants: seq<ShownVariant>): nat {
    if variants == [] then 0
    else if |variants| == 1 then variants[0].price
    else
      var last := |variants| - 1;
      var lowest := CheapestOf(variants[..last]);
      if variants[last].price < lowest then variants[last].price else lowest
  }

  lemma {:induction false} CheapestIsLeast(variants: seq<ShownVariant>)
    ensures forall i :: 0 <= i < |variants| ==> CheapestOf(variants) <= variants[i].price
    ensures if variants == [] then CheapestOf(variants) == 0 else exists i ::
                0 <= i < |variants| && variants[i].price == CheapestOf(variants)
  {
    if |variants| > 1 {
      var last := |variants| - 1;
      CheapestIsLeast(variants[..last]);
      assert forall i :: 0 <= i < last ==> variants[..last][i] == variants[i];
      if CheapestOf(variants) == variants[last].price { } else {
        var i :| 0 <= i < last && variants[..last][i].price == CheapestOf(variants[..last]);
        assert variants[i].price == CheapestOf(variants);
      }
    } else if |variants| == 1 {
      assert variants[0].price == CheapestOf(variants);
    }
  }

  function RequestAxes(options: seq<ShownOption>): (axes: seq<Axis>)
    ensures |axes| == |options|
  {
    seq(|options|, i requires 0 <= i < |options| => Axis(options[i].name, ValuesIn(options[i].values)))
  }

  function Overrides(choices: map<nat, Placed>, copied: seq<ShownVariant>): (overrides: seq<VariantOverride>)
    ensures |overrides| == |copied|
  {
    seq(|copied|, i requires 0 <= i < |copied| => OverrideOf(choices, copied[i]))
  }

  function DuplicateRequest(cap: nat, view: Shown): NewProduct
    requires cap >= |DUPLICATE_NAME_SUFFIX|
  {
    var choices := MapOf(Entries(view.options));
    var copied := Copied(choices, view.variants);
    NewProduct(DuplicateName(cap, view.name), DRAFT, RequestAxes(view.options), Overrides(choices, copied),
               Defaults(CheapestOf(copied), None, Some(0), None))
  }

  // ------------------------------------------------ ids back to their values

  /** The choice `d` of axis `i` is live. */
  ghost predicate LiveAt(stored: seq<StoredAxis>, i: nat, d: Choice) {
    i < |stored| && d in stored[i].choices && !d.deleted
  }

  lemma {:induction false} PlacedMembers(stored: seq<StoredAxis>, options: seq<ShownOption>, m: nat,
                                         entry: (nat, Placed))
    requires ShowsOptions(stored, options) && m < |options|
    ensures entry in PlacedOn(m, options[m].values)
       <==> entry.1.axis == m && exists d :: LiveAt(stored, m, d) && d.id == entry.0 && d.value == entry.1.value
  {
    var live, placed := LiveChoices(stored[m]), PlacedOn(m, options[m].values);
    if entry in placed {
      var k :| 0 <= k < |placed| && placed[k] == entry;
      LiveMembers(stored[m], live[k]);
      assert LiveAt(stored, m, live[k]);
    }
    if entry.1.axis == m && exists d :: LiveAt(stored, m, d) && d.id == entry.0 && d.value == entry.1.value {
      var d :| LiveAt(stored, m, d) && d.id == entry.0 && d.value == entry.1.value;
      LiveMembers(stored[m], d);
      var k :| 0 <= k < |live| && live[k] == d;
      assert placed[k] == entry;
    }
  }

  lemma {:induction false} EntryMembers(stored: seq<StoredAxis>, options: seq<ShownOption>, n: nat,
                                        entry: (nat, Placed))
    requires ShowsOptions(stored, options) && n <= |options|
    ensures entry in Entries(options[..n]) <==> exists d :: LiveAt(stored, entry.1.axis, d) && entry.1.axis < n
                                                            && d.id == entry.0 && d.value == entry.1.value
  {
    if n > 0 {
      var shorter := options[..n - 1];
      EntryMembers(stored, options, n - 1, entry);
      assert options[..n][..n - 1] == shorter && options[..n][n - 1] == options[n - 1];
      PlacedMembers(stored, options, n - 1, entry);
    }
  }

  lemma {:induction false} MapOfMember(entries: seq<(nat, Placed)>, id: nat)
    ensures id in MapOf(entries) <==> exists e :: e in entries && e.0 == id
    ensures id in MapOf(entries) ==> (id, MapOf(entries)[id]) in entries
  {
    if entries != [] {
      var last := |entries| - 1;
      MapOfMember(entries[..last], id);
      assert entries == entries[..last] + [entries[last]];
      if e :| e in entries && e.0 == id {
        if e != entries[last] { assert e in entries[..last]; }
      }
    }
  }

  /** The map finds exactly the live choices, each on its axis with its value. */
  lemma {:induction false} ChoicesFound(stored: seq<StoredAxis>, next: nat, options: seq<ShownOption>, id: nat)
    requires AxesValid(stored, next) && ShowsOptions(stored, options)
    ensures var choices := MapOf(Entries(options));
            && (id in choices ==> exists d :: LiveAt(stored, choices[id].axis, d) && d.id == id
                                              && d.value == choices[id].value)
            && (forall i, d :: LiveAt(stored, i, d) && d.id == id ==> id in choices
                                                                      && choices[id] == Placed(i, d.value))
  {
    var choices, entries := MapOf(Entries(options)), Entries(options);
    assert options[..|options|] == options;
    MapOfMember(entries, id);
    if id in choices { EntryMembers(stored, options, |options|, (id, choices[id])); }
    forall i, d | LiveAt(stored, i, d) && d.id == id ensures id in choices && choices[id] == Placed(i, d.value) {
      EntryMembers(stored, options, |options|, (id, Placed(i, d.value)));
      assert (id, Placed(i, d.value)) in entries;
      EntryMembers(stored, options, |options|, (id, choices[id]));
      var e :| LiveAt(stored, choices[id].axis, e) && e.id == id && e.value == choices[id].value;
      OneHolder(stored, next, i, d, choices[id].axis, e);
    }
  }

  lemma {:induction false} OneHolder(stored: seq<StoredAxis>, next: nat, i: nat, d: Choice, j: nat, e: Choice)
    requires AxesValid(stored, next) && LiveAt(stored, i, d) && LiveAt(stored, j, e) && d.id == e.id
    ensures i == j && d == e
  {
    assert HoldsId(stored[i], d.id) && HoldsId(stored[j], d.id);
    assert AxisValid(stored[i]);
    var a :| 0 <= a < |stored[i].choices| && stored[i].choices[a] == d;
    var b :| 0 <= b < |stored[j].choices| && stored[j].choices[b] == e;
    assert i == j && stored[i].choices[Min(a, b)].id == stored[i].choices[Max(a, b)].id;
  }

  lemma {:induction false} PlacesMembers(choices: map<nat, Placed>, ids: seq<nat>)
    ensures forall p :: p in PlacesOf(choices, ids) <==> exists id :: id in ids && id in choices && choices[id] == p
  {
    if ids != [] {
      PlacesMembers(choices, ids[1..]);
      assert ids == [ids[0]] + ids[1..];
      forall p ensures p in PlacesOf(choices, ids) <==> exists id :: id in ids && id in choices && choices[id] == p {
        if id :| id in ids && id in choices && choices[id] == p {
          if id != ids[0] { assert id in ids[1..]; }
        }
      }
    }
  }

  /** Where a combination's choices sit. */
  function PlacesIn(c: Combination): (places: seq<Placed>)
    ensures |places| == |c|
  {
    seq(|c|, i requires 0 <= i < |c| => Placed(i, c[i]))
  }

  predicate BeforeAxis(a: Placed, b: Placed) { a.axis < b.axis }

  lemma {:induction false} PlaceOf(stored: seq<StoredAxis>, next: nat, options: seq<ShownOption>, c: Combination,
                                   i: nat)
    requires AxesValid(stored, next) && ShowsOptions(stored, options) && Offered(stored, c) && i < |c|
    ensures var choices, id := MapOf(Entries(options)), IdsFor(stored, c)[i];
            id in choices && choices[id] == Placed(i, c[i])
  {
    var id := IdsFor(stored, c)[i];
    assert Offers(stored[i], c[i]);
    var d :| d in stored[i].choices && !d.deleted && d.value == c[i];
    assert AxisValid(stored[i]);
    IdForIs(stored[i], d);
    assert LiveAt(stored, i, d);
    ChoicesFound(stored, next, options, id);
  }

  lemma {:induction false} PlacesDistinct(choices: map<nat, Placed>, ids: seq<nat>)
    requires Distinct(ids)
    requires forall i, j :: 0 <= i < j < |ids| && ids[i] in choices && ids[j] in choices ==>
                 choices[ids[i]] != choices[ids[j]]
    ensures Distinct(PlacesOf(choices, ids))
  {
    if ids != [] {
      var rest := ids[1..];
      assert forall i :: 0 <= i < |rest| ==> rest[i] == ids[i + 1];
      PlacesDistinct(choices, rest);
      PlacesMembers(choices, rest);
      forall k | 0 <= k < |rest| && ids[0] in choices && rest[k] in choices
        ensures choices[rest[k]] != choices[ids[0]] {
        assert rest[k] == ids[k + 1];
      }
      forall q | q in PlacesOf(choices, rest) && ids[0] in choices ensures q != choices[ids[0]] {
        var id :| id in rest && id in choices && choices[id] == q;
        var k :| 0 <= k < |rest| && rest[k] == id;
      }
      var tail, all := PlacesOf(choices, rest), PlacesOf(choices, ids);
      assert all == (if ids[0] in choices then [choices[ids[0]]] + tail else tail);
      assert forall k :: 0 <= k < |tail| ==> tail[k] in tail;
    }
  }

  /** Ids in whatever order: the same ids are read, each once. */
  lemma {:induction false} SameIds(ids: seq<nat>, own: seq<nat>)
    requires multiset(ids) == multiset(own) && Distinct(own)
    ensures Distinct(ids) && forall id :: id in ids <==> id in own
  {
    forall id ensures id in ids <==> id in own {
      assert id in multiset(ids) <==> id in ids;
      assert id in multiset(own) <==> id in own;
    }
    forall i, j | 0 <= i < j < |ids| ensures ids[i] != ids[j] {
      CountAtMostOne(own, ids[i]);
      if ids[i] == ids[j] { RepeatCountsTwice(ids, i, j); }
    }
  }

  lemma {:induction false} IdsForDistinct(stored: seq<StoredAxis>, next: nat, c: Combination)
    requires AxesValid(stored, next) && Offered(stored, c)
    ensures Distinct(IdsFor(stored, c))
  {
    IdsForOneEach(stored, c);
    var own := IdsFor(stored, c);
    forall i, j | 0 <= i < j < |own| ensures own[i] != own[j] {
      assert HoldsId(stored[i], own[i]) && HoldsId(stored[j], own[j]);
    }
  }

  /** A variant's ids, in whatever order they were read, name its combination by value, in axis order. */
  lemma {:induction false} ReadBack(stored: seq<StoredAxis>, next: nat, options: seq<ShownOption>, v: ShownVariant,
                                    c: Combination)
    requires AxesValid(stored, next) && ShowsOptions(stored, options) && Offered(stored, c)
    requires multiset(v.ids) == multiset(IdsFor(stored, c))
    ensures var choices := MapOf(Entries(options)); Named(choices, v) && CombinationOf(choices, v) == c
  {
    var choices, own, places := MapOf(Entries(options)), IdsFor(stored, c), PlacesIn(c);
    IdsForDistinct(stored, next, c);
    SameIds(v.ids, own);
    forall i | 0 <= i < |c| ensures own[i] in choices && choices[own[i]] == places[i] {
      PlaceOf(stored, next, options, c, i);
    }
    forall i | 0 <= i < |v.ids| ensures v.ids[i] in choices {
      assert v.ids[i] in v.ids;
      var k :| 0 <= k < |own| && own[k] == v.ids[i];
    }
    PlacesOfSame(choices, v.ids, own, places);
    SortedPlaces(PlacesOf(choices, v.ids), places);
    assert ValuesOf(places) == c;
  }

  lemma {:induction false} PlacesOfSame(choices: map<nat, Placed>, ids: seq<nat>, own: seq<nat>, places: seq<Placed>)
    requires |own| == |places| && Distinct(ids) && (forall id :: id in ids <==> id in own)
    requires forall i :: 0 <= i < |own| ==> own[i] in choices && choices[own[i]] == places[i] && places[i].axis == i
    ensures Distinct(PlacesOf(choices, ids)) && forall p :: p in PlacesOf(choices, ids) <==> p in places
  {
    PlacesMembers(choices, ids);
    forall p ensures p in PlacesOf(choices, ids) <==> p in places {
      if p in places {
        var i :| 0 <= i < |places| && places[i] == p;
        assert own[i] in ids;
      }
      if p in PlacesOf(choices, ids) {
        var id :| id in ids && id in choices && choices[id] == p;
        var i :| 0 <= i < |own| && own[i] == id;
        assert places[i] == p;
      }
    }
    forall id | id in ids ensures id in choices { var k :| 0 <= k < |own| && own[k] == id; }
    forall i, j | 0 <= i < j < |ids| ensures ids[i] in choices && ids[j] in choices
                  && choices[ids[i]] != choices[ids[j]] {
      assert ids[i] in ids && ids[j] in ids;
      var k :| 0 <= k < |own| && own[k] == ids[i];
      var l :| 0 <= l < |own| && own[l] == ids[j];
    }
    PlacesDistinct(choices, ids);
  }

  lemma {:induction false} SortedPlaces(read: seq<Placed>, places: seq<Placed>)
    requires Distinct(read) && (forall p :: p in read <==> p in places)
    requires forall i :: 0 <= i < |places| ==> places[i].axis == i
    ensures Sort(ByAxis, read) == places
  {
    var sorted := Sort(ByAxis, read);
    assert TotalPreorder(ByAxis);
    SortSorted(ByAxis, read);
    SortDistinct(ByAxis, read);
    SortMembers(ByAxis, read);
    forall i, j | 0 <= i < j < |sorted| ensures BeforeAxis(sorted[i], sorted[j]) {
      assert sorted[i] in sorted && sorted[j] in sorted && ByAxis(sorted[i], sorted[j]);
      var k :| 0 <= k < |places| && places[k] == sorted[i];
      var l :| 0 <= l < |places| && places[l] == sorted[j];
    }
    StrictlySortedUnique(BeforeAxis, sorted, places);
  }

  /** A variant is copied exactly when its combination is still on offer. */
  lemma {:induction false} NamedIffInGrid(stored: seq<StoredAxis>, next: nat, options: seq<ShownOption>,
                                          v: ShownVariant, own: seq<nat>)
    requires AxesValid(stored, next) && ShowsOptions(stored, options) && OneEach(stored, own)
    requires multiset(v.ids) == multiset(own)
    ensures Named(MapOf(Entries(options)), v) <==> InGrid(stored, own)
  {
    var choices := MapOf(Entries(options));
    if InGrid(stored, own) {
      var c :| Offered(stored, c) && IdsFor(stored, c) == own;
      ReadBack(stored, next, options, v, c);
    }
    if Named(choices, v) {
      forall i | 0 <= i < |own| ensures LiveWithId(stored[i], own[i]) {
        assert own[i] in multiset(own);
        assert own[i] in multiset(v.ids);
        var k :| 0 <= k < |v.ids| && v.ids[k] == own[i];
        ChoicesFound(stored, next, options, own[i]);
        var d :| LiveAt(stored, choices[own[i]].axis, d) && d.id == own[i] && d.value == choices[own[i]].value;
        var j := choices[own[i]].axis;
        assert HoldsId(stored[j], own[i]) && HoldsId(stored[i], own[i]);
        assert i == j;
      }
      LiveIdsInGrid(stored, next, own);
    }
  }

  ghost predicate LiveWithId(axis: StoredAxis, id: nat) { exists d :: d in axis.choices && !d.deleted && d.id == id }

  lemma {:induction false} LiveIdsInGrid(stored: seq<StoredAxis>, next: nat, own: seq<nat>)
    requires AxesValid(stored, next) && |own| == |stored|
    requires forall i :: 0 <= i < |own| ==> LiveWithId(stored[i], own[i])
    ensures InGrid(stored, own)
  {
    var c: Combination := seq(|own|, i requires 0 <= i < |own| => ValueWithId(stored[i], own[i]));
    forall i | 0 <= i < |own| ensures Offers(stored[i], c[i]) && IdFor(stored[i], c[i]) == own[i] {
      assert AxisValid(stored[i]) && c[i] == ValueWithId(stored[i], own[i]);
      var d :| d in stored[i].choices && !d.deleted && d.id == own[i] && d.value == c[i];
      IdForIs(stored[i], d);
    }
    assert Offered(stored, c) && IdsFor(stored, c) == own;
  }

  ghost function ValueWithId(axis: StoredAxis, id: nat): (value: string)
    requires LiveWithId(axis, id)
    ensures exists d :: d in axis.choices && !d.deleted && d.id == id && d.value == value
  {
    var d :| d in axis.choices && !d.deleted && d.id == id;
    d.value
  }

  // ------------------------------------------------------ planning the copy

  lemma {:induction false} CopiedMembers(choices: map<nat, Placed>, variants: seq<ShownVariant>)
    ensures forall v :: v in Copied(choices, variants) <==> v in variants && Named(choices, v)
  {
    if variants != [] {
      CopiedMembers(choices, variants[1..]);
      assert variants == [variants[0]] + variants[1..];
    }
  }

  /** Every entry of the list stands for a combination on offer, no two for one, and none is left out. */
  ghost predicate Lists(stored: seq<StoredAxis>, choices: map<nat, Placed>, copied: seq<ShownVariant>) {
    && (forall i :: 0 <= i < |copied| ==> Offered(stored, CombinationOf(choices, copied[i])))
    && (forall i, j :: 0 <= i < j < |copied| ==> CombinationOf(choices, copied[i]) != CombinationOf(choices, copied[j]))
    && (forall c {:trigger Offered(stored, c)} :: Offered(stored, c) ==> ListedBy(choices, copied, c))
  }

  ghost predicate ListedBy(choices: map<nat, Placed>, copied: seq<ShownVariant>, c: Combination) {
    exists i :: 0 <= i < |copied| && CombinationOf(choices, copied[i]) == c
  }

  /** A shown variant that is copied shows a live row of the combination it reads back as. */
  lemma {:induction false} CopiedRow(p: Product, next: nat, view: Shown, rows: seq<nat>, i: nat)
    returns (c: Combination)
    requires GridValid(p.axes, p.variants, next) && Shows(p, view, rows) && i < |rows|
    requires Named(MapOf(Entries(view.options)), view.variants[i])
    ensures Offered(p.axes, c) && p.variants[rows[i]].choiceIds == IdsFor(p.axes, c)
    ensures CombinationOf(MapOf(Entries(view.options)), view.variants[i]) == c
  {
    var row := p.variants[rows[i]];
    assert VariantValid(p.axes, next, row);
    NamedIffInGrid(p.axes, next, view.options, view.variants[i], row.choiceIds);
    c :| Offered(p.axes, c) && IdsFor(p.axes, c) == row.choiceIds;
    ReadBack(p.axes, next, view.options, view.variants[i], c);
  }

  /** Copied variants at different places read back as different combinations. */
  lemma {:induction false} CopiedApart(p: Product, next: nat, view: Shown, rows: seq<nat>, i: nat, j: nat)
    requires GridValid(p.axes, p.variants, next) && Shows(p, view, rows) && i < j < |rows|
    requires Named(MapOf(Entries(view.options)), view.variants[i])
    requires Named(MapOf(Entries(view.options)), view.variants[j])
    ensures CombinationOf(MapOf(Entries(view.options)), view.variants[i])
                != CombinationOf(MapOf(Entries(view.options)), view.variants[j])
  {
    var c := CopiedRow(p, next, view, rows, i);
    var d := CopiedRow(p, next, view, rows, j);
    OnlyOneLive(p.axes, p.variants, next, Min(rows[i], rows[j]), Max(rows[i], rows[j]));
  }

  /** Every combination on offer is the one some shown and copied variant reads back as. */
  lemma {:induction false} CopiedCovers(p: Product, next: nat, view: Shown, rows: seq<nat>, c: Combination)
    returns (i: nat)
    requires GridValid(p.axes, p.variants, next) && Shows(p, view, rows) && Offered(p.axes, c)
    ensures i < |rows| && p.variants[rows[i]].choiceIds == IdsFor(p.axes, c)
    ensures Named(MapOf(Entries(view.options)), view.variants[i])
    ensures CombinationOf(MapOf(Entries(view.options)), view.variants[i]) == c
  {
    assert HasLive(p.variants, IdsFor(p.axes, c));
    var k :| 0 <= k < |p.variants| && !p.variants[k].deleted && p.variants[k].choiceIds == IdsFor(p.axes, c);
    assert k in rows;
    i :| 0 <= i < |rows| && rows[i] == k;
    assert ShowsVariant(p.variants[k], view.variants[i]);
    ReadBack(p.axes, next, view.options, view.variants[i], c);
  }

  /** Where each entry of `copied` stands among the variants, in order. */
  ghost predicate Places(choices: map<nat, Placed>, variants: seq<ShownVariant>, copied: seq<ShownVariant>,
                         from: seq<nat>) {
    && |from| == |copied|
    && (forall i :: 0 <= i < |from| ==> from[i] < |variants| && variants[from[i]] == copied[i]
                                        && Named(choices, copied[i]))
    && (forall i, j :: 0 <= i < j < |from| ==> from[i] < from[j])
  }

  lemma {:induction false} PlacesNext(choices: map<nat, Placed>, variants: seq<ShownVariant>, copied: seq<ShownVariant>,
                                      rest: seq<nat>)
    returns (from: seq<nat>)
    requires variants != [] && Places(choices, variants[1..], copied, rest)
    ensures Places(choices, variants, (if Named(choices, variants[0]) then [variants[0]] else []) + copied, from)
  {
    var shifted := seq(|rest|, i requires 0 <= i < |rest| => rest[i] + 1);
    assert Places(choices, variants, copied, shifted);
    from := (if Named(choices, variants[0]) then [0] else []) + shifted;
  }

  lemma {:induction false} CopiedPlaces(choices: map<nat, Placed>, variants: seq<ShownVariant>) returns (from: seq<nat>)
    ensures Places(choices, variants, Copied(choices, variants), from)
  {
    if variants == [] {
      from := [];
    } else {
      var rest := CopiedPlaces(choices, variants[1..]);
      from := PlacesNext(choices, variants, Copied(choices, variants[1..]), rest);
    }
  }

  lemma {:induction false} CopiedLists(p: Product, next: nat, view: Shown, rows: seq<nat>)
    requires GridValid(p.axes, p.variants, next) && Shows(p, view, rows)
    ensures var choices := MapOf(Entries(view.options)); Lists(p.axes, choices, Copied(choices, view.variants))
  {
    var choices := MapOf(Entries(view.options));
    var copied := Copied(choices, view.variants);
    var from := CopiedPlaces(choices, view.variants);
    forall i | 0 <= i < |copied| ensures Offered(p.axes, CombinationOf(choices, copied[i])) {
      var c := CopiedRow(p, next, view, rows, from[i]);
    }
    forall i, j | 0 <= i < j < |copied| ensures CombinationOf(choices, copied[i]) != CombinationOf(choices, copied[j]) {
      CopiedApart(p, next, view, rows, from[i], from[j]);
    }
    CopiedMembers(choices, view.variants);
    forall c | Offered(p.axes, c) ensures ListedBy(choices, copied, c) {
      var k := CopiedCovers(p, next, view, rows, c);
      assert view.variants[k] in view.variants;
      var i :| 0 <= i < |copied| && copied[i] == view.variants[k];
    }
  }

  lemma {:induction false} RequestAxesAre(stored: seq<StoredAxis>, options: seq<ShownOption>)
    requires ShowsOptions(stored, options)
    ensures RequestAxes(options) == AxesOf(stored)
  {
  }

  /** Overrides naming every combination once match by key exactly when the keys tell the combinations apart. */
  lemma {:induction false} FullMatchIff(axes: seq<Axis>, overrides: seq<VariantOverride>)
    requires forall i :: 0 <= i < |overrides| ==> IsCombination(axes, overrides[i].optionValues)
    requires forall i, j :: 0 <= i < j < |overrides| ==> overrides[i].optionValues != overrides[j].optionValues
    requires forall c {:trigger IsCombination(axes, c)} :: IsCombination(axes, c) ==> NamedBy(overrides, c)
    ensures Matching(|axes|, Keys(Grid(axes)), overrides) <==> KeysApart(axes)
  {
    forall i | 0 <= i < |overrides| ensures NamesKnown(|axes|, Keys(Grid(axes)), overrides, i) {
      KnownKeys(axes, CombinationKeyOf(overrides[i].optionValues));
    }
    if Matching(|axes|, Keys(Grid(axes)), overrides) {
      forall c, d | IsCombination(axes, c) && IsCombination(axes, d) && CombinationKeyOf(c) == CombinationKeyOf(d)
        ensures c == d {
        assert NamedBy(overrides, c) && NamedBy(overrides, d);
        var i :| 0 <= i < |overrides| && overrides[i].optionValues == c;
        var j :| 0 <= j < |overrides| && overrides[j].optionValues == d;
      }
    }
  }

  ghost predicate NamedBy(overrides: seq<VariantOverride>, c: Combination) {
    exists i :: 0 <= i < |overrides| && overrides[i].optionValues == c
  }

  lemma {:induction false} ListedMatchIff(stored: seq<StoredAxis>, choices: map<nat, Placed>, copied: seq<ShownVariant>)
    requires Lists(stored, choices, copied)
    ensures Matching(|stored|, Keys(Grid(AxesOf(stored))), Overrides(choices, copied)) <==> KeysApart(AxesOf(stored))
  {
    var overrides := Overrides(choices, copied);
    forall i | 0 <= i < |overrides| ensures IsCombination(AxesOf(stored), overrides[i].optionValues) {
      OfferedIffCombination(stored, overrides[i].optionValues);
    }
    forall c | IsCombination(AxesOf(stored), c) ensures NamedBy(overrides, c) {
      OfferedIffCombination(stored, c);
      assert ListedBy(choices, copied, c);
      var i :| 0 <= i < |copied| && CombinationOf(choices, copied[i]) == c;
      assert overrides[i].optionValues == c;
    }
    FullMatchIff(AxesOf(stored), overrides);
  }

  /** The planner accepts the copy's request exactly when the stored values' keys tell the combinations apart. */
  lemma {:induction false} DuplicateAcceptedIff(p: Product, next: nat, max: nat, cap: nat, view: Shown, rows: seq<nat>)
    requires !p.deleted && ProductValid(p, next, max) && Shows(p, view, rows) && cap >= |DUPLICATE_NAME_SUFFIX|
    ensures var r := DuplicateRequest(cap, view);
            && r.axes == AxesOf(p.axes)
            && (PlanVariants(r.axes, r.overrides, max).Ok? <==> KeysApart(AxesOf(p.axes)))
  {
    var choices := MapOf(Entries(view.options));
    var r := DuplicateRequest(cap, view);
    RequestAxesAre(p.axes, view.options);
    CopiedLists(p, next, view, rows);
    ListedMatchIff(p.axes, choices, Copied(choices, view.variants));
    StoredGood(p.axes, next);
    AcceptedIff(r.axes, r.overrides, max);
  }

  lemma {:induction false} StoredGood(stored: seq<StoredAxis>, next: nat)
    requires AxesValid(stored, next)
    ensures GoodAxes(AxesOf(stored))
  {
    var axes := AxesOf(stored);
    forall i | 0 <= i < |axes| ensures Distinct(axes[i].values) {
      assert AxisValid(stored[i]);
      LiveValuesDistinct(stored[i]);
    }
    forall i, j | 0 <= i < j < |axes| ensures Names(axes)[i] != Names(axes)[j] {
      assert stored[i].name != stored[j].name;
    }
  }

  /** Values free of the separator always tell. */
  lemma {:induction false} SeparatorFreeTells(axes: seq<Axis>)
    requires Unambiguous(axes)
    ensures KeysApart(axes)
  {
    UnambiguousTells(axes);
  }

  /** What the copy's request says of the source row `row`. */
  function OverrideOfRow(row: Variant, c: Combination): VariantOverride {
    Override(c, Detail(Some(row.price), Some(row.listPrice), None, Some(row.limit), Some(row.isActive)))
  }

  /** Each combination of the copy is overridden by the one live source variant it had. */
  lemma {:induction false} DuplicateCarries(p: Product, next: nat, max: nat, cap: nat, view: Shown, rows: seq<nat>,
                                            c: Combination)
    returns (row: Variant)
    requires !p.deleted && ProductValid(p, next, max) && Shows(p, view, rows) && cap >= |DUPLICATE_NAME_SUFFIX|
    requires KeysApart(AxesOf(p.axes)) && IsCombination(AxesOf(p.axes), c)
    ensures Offered(p.axes, c) && row in p.variants && !row.deleted && row.choiceIds == IdsFor(p.axes, c)
    ensures PriceOk(row)
    ensures OverrideFor(DuplicateRequest(cap, view).overrides, CombinationKeyOf(c)) == Some(OverrideOfRow(row, c))
  {
    var r, choices := DuplicateRequest(cap, view), MapOf(Entries(view.options));
    var copied := Copied(choices, view.variants);
    DuplicateAcceptedIff(p, next, max, cap, view, rows);
    OfferedIffCombination(p.axes, c);
    var k := CopiedCovers(p, next, view, rows, c);
    row := p.variants[rows[k]];
    assert VariantValid(p.axes, next, row);
    CopiedMembers(choices, view.variants);
    assert view.variants[k] in view.variants;
    var i :| 0 <= i < |copied| && copied[i] == view.variants[k];
    assert r.overrides[i] == OverrideOf(choices, view.variants[k]) == OverrideOfRow(row, c);
    NamedFound(r.axes, r.overrides, max, i);
  }

  // ------------------------------------------------------ creating the copy

  /** `v` is the copy of the live source row `row`: same combination, prices, limit and flag; no stock. */
  ghost predicate Mirrors(copyAxes: seq<StoredAxis>, v: Variant, axes: seq<StoredAxis>, row: Variant, c: Combination) {
    && Offered(copyAxes, c) && v.choiceIds == IdsFor(copyAxes, c) && !v.deleted
    && Offered(axes, c) && row.choiceIds == IdsFor(axes, c) && !row.deleted
    && v.price == row.price && v.listPrice == row.listPrice && v.limit == row.limit && v.isActive == row.isActive
    && v.stock == 0
  }

  /** Prices that come from stored rows never break the price check, so an empty product takes all of them. */
  lemma {:induction false} LaidOnEmpty(keyed: seq<Keyed>, defaults: Defaults, next: nat)
    requires forall k :: 0 <= k < |keyed| ==> TakesRow(keyed[k], defaults)
    ensures Lay([], keyed, Some(defaults), next).Ok?
  {
    var unmet := Unmet(keyed, LiveSignatures([]));
    assert OverlaidAll([], keyed) == [];
    forall m | 0 <= m < |unmet| ensures PriceOk(Born(unmet[m], defaults, next + m)) {
      assert unmet[m] in unmet;
      UnmetMembers(keyed, LiveSignatures([]), unmet[m]);
      var k :| 0 <= k < |keyed| && keyed[k] == unmet[m];
      assert TakesRow(keyed[k], defaults);
    }
  }

  /** The plan's override carries a stored row's price and list price. */
  ghost predicate TakesRow(p: Keyed, defaults: Defaults) {
    exists row: Variant :: PriceOk(row) && p.plan.override == Some(OverrideOfRow(row, p.plan.combination))
                           && defaults.listPrice == None
  }

  lemma {:induction false} DuplicateRevises(p: Product, next: nat, max: nat, cap: nat, view: Shown, rows: seq<nat>,
                                            blank: Product, n: nat)
    requires !p.deleted && ProductValid(p, next, max) && Shows(p, view, rows) && cap >= |DUPLICATE_NAME_SUFFIX|
    requires KeysApart(AxesOf(p.axes)) && Blanked(blank, n, AxesOf(p.axes))
    ensures DuplicateRequest(cap, view).axes == AxesOf(p.axes)
    ensures var r := DuplicateRequest(cap, view); Revise(blank, n, max, r.axes, r.overrides, Some(r.defaults)).Ok?
  {
    var r := DuplicateRequest(cap, view);
    DuplicateAcceptedIff(p, next, max, cap, view, rows);
    StoredGood(p.axes, next);
    var keyed := KeyedPlans(blank, n, max, r.axes, r.overrides);
    PlansAreTheGrid(r.axes, r.overrides, max);
    forall k | 0 <= k < |keyed| ensures TakesRow(keyed[k], r.defaults) {
      var c := keyed[k].plan.combination;
      assert PlanVariants(r.axes, r.overrides, max).value[k].combination == c;
      PlanCarries(blank, n, max, r.axes, r.overrides, k);
      var row := DuplicateCarries(p, next, max, cap, view, rows, c);
    }
    LaidOnEmpty(keyed, r.defaults, NextAt(blank.axes, r.axes, n, |r.axes|));
  }

  /** Each variant of the copy mirrors the live source variant of its combination. */
  lemma {:induction false} DuplicateMirrors(p: Product, next: nat, max: nat, cap: nat, view: Shown, rows: seq<nat>,
                                            blank: Product, n: nat, k: nat)
    returns (row: Variant, c: Combination)
    requires !p.deleted && ProductValid(p, next, max) && Shows(p, view, rows) && cap >= |DUPLICATE_NAME_SUFFIX|
    requires KeysApart(AxesOf(p.axes)) && Blanked(blank, n, AxesOf(p.axes))
    requires DuplicateRequest(cap, view).axes == AxesOf(p.axes)
    requires var r := DuplicateRequest(cap, view);
             && Revise(blank, n, max, r.axes, r.overrides, Some(r.defaults)).Ok?
             && k < |Revise(blank, n, max, r.axes, r.overrides, Some(r.defaults)).value.0.variants|
    ensures var r := DuplicateRequest(cap, view);
            var copy := Revise(blank, n, max, r.axes, r.overrides, Some(r.defaults)).value.0;
            row in p.variants && Mirrors(copy.axes, copy.variants[k], p.axes, row, c)
  {
    var r := DuplicateRequest(cap, view);
    StoredGood(p.axes, next);
    c := AddedVariant(blank, n, max, r.axes, r.overrides, Some(r.defaults), k);
    row := DuplicateCarries(p, next, max, cap, view, rows, c);
  }

  /** `v` mirrors some live row of the source. */
  ghost predicate HasSource(p: Product, axes: seq<StoredAxis>, v: Variant) {
    exists row, c :: row in p.variants && Mirrors(axes, v, p.axes, row, c)
  }

  /** The same combinations on offer, each variant mirroring the source's. */
  ghost predicate IsCopy(p: Product, axes: seq<StoredAxis>, variants: seq<Variant>) {
    && (forall c {:trigger Offered(axes, c)} :: Offered(axes, c) <==> Offered(p.axes, c))
    && (forall k :: 0 <= k < |variants| ==> HasSource(p, axes, variants[k]))
  }

  lemma {:induction false} RevisedIsCopy(p: Product, next: nat, max: nat, cap: nat, view: Shown, rows: seq<nat>,
                                         blank: Product, n: nat,
                                         copy: Product, r: NewProduct)
    requires !p.deleted && ProductValid(p, next, max) && Shows(p, view, rows) && cap >= |DUPLICATE_NAME_SUFFIX|
    requires KeysApart(AxesOf(p.axes)) && Blanked(blank, n, AxesOf(p.axes)) && r == DuplicateRequest(cap, view)
    requires r.axes == AxesOf(p.axes)
    requires var revised := Revise(blank, n, max, r.axes, r.overrides,
                                   Some(r.defaults)); revised.Ok? && copy == revised.value.0
    ensures copy.axes == ReviseAll(blank.axes, r.axes, n) && IsCopy(p, copy.axes, copy.variants)
  {
    forall k | 0 <= k < |copy.variants| ensures HasSource(p, copy.axes, copy.variants[k]) {
      var row, c := DuplicateMirrors(p, next, max, cap, view, rows, blank, n, k);
    }
    RevisedBy(blank, n, max, r.axes, r.overrides, Some(r.defaults),
              Lay(blank.variants, KeyedPlans(blank, n, max, r.axes, r.overrides),
              Some(r.defaults), NextAt(blank.axes, r.axes, n, |r.axes|)));
    forall c ensures Offered(copy.axes, c) <==> Offered(p.axes, c) {
      RevisedOffered(blank.axes, r.axes, n, c);
      OfferedIffCombination(p.axes, c);
    }
  }

  /**
   * Creating from the request succeeds and gives a draft whose every variant mirrors the source's live
   * variant of the same combination, so no copied variant ever takes the default price.
   */
  lemma {:induction false} DuplicateCreates(s: Store, max: nat, cap: nat, id: nat, view: Shown, rows: seq<nat>,
                                            d: Draft)
    requires StoreValid(s, max) && LiveProduct(s, id) && Shows(s.products[id], view, rows)
    requires cap >= |DUPLICATE_NAME_SUFFIX|
    requires KeysApart(AxesOf(s.products[id].axes)) && d == DraftOf(s, DuplicateRequest(cap, view))
    ensures var made := Create(s, max, d, DuplicateRequest(cap, view), false);
            && made.error == None && s.next in made.store.products
            && var copy := made.store.products[s.next];
               copy.status == DRAFT && !copy.deleted && IsCopy(s.products[id], copy.axes, copy.variants)
  {
    var p, r := s.products[id], DuplicateRequest(cap, view);
    assert ProductValid(p, s.next, max);
    RequestAxesAre(p.axes, view.options);
    DuplicateRevises(p, s.next, max, cap, view, rows, d.row, d.next);
    DuplicateAcceptedIff(p, s.next, max, cap, view, rows);
    var revised := Revise(d.row, d.next, max, r.axes, r.overrides, Some(r.defaults));
    RevisedIsCopy(p, s.next, max, cap, view, rows, d.row, d.next, revised.value.0, r);
    CreatedAsRevised(s, max, d, r, revised);
  }

  /** A row the request may copy: live, and its combination is on offer. */
  ghost predicate Copyable(p: Product, k: nat) {
    k < |p.variants| && !p.variants[k].deleted && InGrid(p.axes, p.variants[k].choiceIds)
  }

  /**
   * What is asked for apart from the overrides: a draft of the same options, by default the least price, none in stock.
   */
  lemma {:induction false} RequestExact(p: Product, next: nat, cap: nat, view: Shown, rows: seq<nat>)
    requires Shows(p, view, rows) && GridValid(p.axes, p.variants, next) && cap >= |DUPLICATE_NAME_SUFFIX|
    ensures var r := DuplicateRequest(cap, view);
            && r.status == DRAFT && r.axes == AxesOf(p.axes)
            && r.defaults.stock == Some(0) && r.defaults.listPrice == None && r.defaults.limit == None
    ensures LeastCopyable(p, DuplicateRequest(cap, view).defaults.price)
  {
    RequestAxesAre(p.axes, view.options);
    DefaultPrice(p, next, view, rows);
  }

  /** The least price among the rows copied, zero when there are none. */
  ghost predicate LeastCopyable(p: Product, least: nat) {
    && (forall k: nat :: Copyable(p, k) ==> least <= p.variants[k].price)
    && ((exists k: nat :: Copyable(p, k)) ==> exists k: nat :: Copyable(p, k) && p.variants[k].price == least)
    && ((forall k: nat :: !Copyable(p, k)) ==> least == 0)
  }

  lemma {:induction false} DefaultPrice(p: Product, next: nat, view: Shown, rows: seq<nat>)
    requires Shows(p, view, rows) && GridValid(p.axes, p.variants, next)
    ensures LeastCopyable(p, CheapestOf(Copied(MapOf(Entries(view.options)), view.variants)))
  {
    var copied := Copied(MapOf(Entries(view.options)), view.variants);
    CheapestIsLeast(copied);
    forall k: nat | Copyable(p, k) ensures CheapestOf(copied) <= p.variants[k].price {
      RowCopied(p, next, view, rows, k);
    }
    if copied != [] {
      var i :| 0 <= i < |copied| && copied[i].price == CheapestOf(copied);
      var k := CopiedFrom(p, next, view, rows, copied[i]);
    } else {
      forall k: nat ensures !Copyable(p, k) { if Copyable(p, k) { RowCopied(p, next, view, rows, k); } }
    }
  }

  lemma {:induction false} RowCopied(p: Product, next: nat, view: Shown, rows: seq<nat>, k: nat)
    requires Shows(p, view, rows) && GridValid(p.axes, p.variants, next) && Copyable(p, k)
    ensures exists v :: v in Copied(MapOf(Entries(view.options)), view.variants) && v.price == p.variants[k].price
  {
    var choices := MapOf(Entries(view.options));
    assert k in rows;
    var i :| 0 <= i < |rows| && rows[i] == k;
    assert VariantValid(p.axes, next, p.variants[k]) && ShowsVariant(p.variants[rows[i]], view.variants[i]);
    NamedIffInGrid(p.axes, next, view.options, view.variants[i], p.variants[k].choiceIds);
    CopiedMembers(choices, view.variants);
    assert view.variants[i] in Copied(choices, view.variants);
  }

  lemma {:induction false} CopiedFrom(p: Product, next: nat, view: Shown, rows: seq<nat>, v: ShownVariant)
    returns (k: nat)
    requires Shows(p, view, rows) && GridValid(p.axes, p.variants, next)
    requires v in Copied(MapOf(Entries(view.options)), view.variants)
    ensures Copyable(p, k) && p.variants[k].price == v.price
  {
    CopiedMembers(MapOf(Entries(view.options)), view.variants);
    var i :| 0 <= i < |view.variants| && view.variants[i] == v;
    k := rows[i];
    assert VariantValid(p.axes, next, p.variants[k]) && ShowsVariant(p.variants[k], v);
    NamedIffInGrid(p.axes, next, view.options, v, p.variants[k].choiceIds);
  }

  /** The copy is a draft of the source's name marked as a copy, with the source's options, nothing in stock. */
  lemma {:induction false} DuplicateExact(s: Store, max: nat, cap: nat, id: nat, view: Shown, rows: seq<nat>, d: Draft)
    returns (copy: Product)
    requires StoreValid(s, max) && LiveProduct(s, id) && Shows(s.products[id], view, rows)
    requires cap >= |DUPLICATE_NAME_SUFFIX|
    requires KeysApart(AxesOf(s.products[id].axes)) && d == DraftOf(s, DuplicateRequest(cap, view))
    ensures Create(s, max, d, DuplicateRequest(cap, view), false).store.products == s.products[s.next := copy]
    ensures copy.name == DuplicateName(cap, s.products[id].name) && copy.status == DRAFT && copy.version == 0
    ensures !copy.deleted && AxesOf(copy.axes) == AxesOf(s.products[id].axes)
    ensures |copy.variants| == GridCount(AxesOf(s.products[id].axes))
    ensures forall k :: 0 <= k < |copy.variants| ==> copy.variants[k].stock == 0
  {
    DuplicateCreates(s, max, cap, id, view, rows, d);
    copy := ProductResults.CreateExact(s, max, d, DuplicateRequest(cap, view), false);
    RequestAxesAre(s.products[id].axes, view.options);
    var made := Create(s, max, d, DuplicateRequest(cap, view), false).store.products[s.next];
    assert made == copy;
    forall k | 0 <= k < |copy.variants| ensures copy.variants[k].stock == 0 {
      assert HasSource(s.products[id], copy.axes, copy.variants[k]);
    }
  }

  /** Otherwise creating from the request is refused by the planner, and nothing is written. */
  lemma {:induction false} DuplicateRefused(s: Store, max: nat, cap: nat, id: nat, view: Shown, rows: seq<nat>,
                                            d: Draft)
    requires StoreValid(s, max) && LiveProduct(s, id) && Shows(s.products[id], view, rows)
    requires cap >= |DUPLICATE_NAME_SUFFIX|
    requires !KeysApart(AxesOf(s.products[id].axes)) && d == DraftOf(s, DuplicateRequest(cap, view))
    ensures var made := Create(s, max, d, DuplicateRequest(cap, view), false);
            made.store == s && made.error.Some? && made.error.value.PlanRefused?
  {
    assert ProductValid(s.products[id], s.next, max);
    DuplicateAcceptedIff(s.products[id], s.next, max, cap, view, rows);
  }

  /** A draft request that revises its blank row is written as revised, but for the derived price. */
  lemma {:induction false} CreatedAsRevised(s: Store, max: nat, d: Draft, input: NewProduct,
                                            revised: Result<(Product, nat), Error>)
    requires |d.row.axes| == |input.axes| && PlanVariants(input.axes, input.overrides, max).Ok? && input.status == DRAFT
    requires !d.row.deleted
    requires revised == Revise(d.row, d.next, max, input.axes, input.overrides, Some(input.defaults)) && revised.Ok?
    ensures var made := Create(s, max, d, input, false);
            && made.error == None && s.next in made.store.products
            && var copy := made.store.products[s.next];
               && copy.status == DRAFT && !copy.deleted
               && copy.axes == revised.value.0.axes == ReviseAll(d.row.axes, input.axes, d.next)
               && copy.variants == revised.value.0.variants
  {
  }
}
