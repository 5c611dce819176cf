/** The job graph of a product image set: which pictures are planned, and what each must wait for. */
module ImagePlan {
  import opened Prelude
  import opened Texts

  datatype Shot = Front | Back | Side | Texture | ModelFront | ModelSide | ModelBack | Editorial

  function Deps(shot: Shot): seq<Shot> {
    match shot
    case Front => []
    case Back => [Front]
    case Side => [Front]
    case Texture => [Front]
    case ModelFront => [Front]
    case ModelSide => [Front, ModelFront]
    case ModelBack => [Front, Back, ModelFront]
    case Editorial => [Front, ModelFront]
  }

  predicate OfModel(shot: Shot) { shot.ModelFront? || shot.ModelSide? || shot.ModelBack? || shot.Editorial? }

  /** A picture of the product: one shot, of one model profile when profiles are listed. */
  datatype View = Plain(shot: Shot) | Profiled(model: string, shot: Shot)

  /** What a job is of. The program renders these three parts into one string: see `ImageNames`. */
  datatype Key = Key(product: string, variant: Option<string>, view: View)

  datatype Entry = Entry(view: View, deps: seq<View>)

  datatype Model = Model(id: string, description: string)

  datatype Kind = Color | Material | OtherKind

  datatype Variant = Variant(id: string, kind: Kind, value: string, views: Option<seq<Shot>>)

  /** `described` says the four required text fields are there; `single` that one model styling is given. */
  datatype Product = Product(id: string, described: bool, shots: seq<Shot>, single: bool, models: Option<seq<Model>>,
                             variants: seq<Variant>)

  datatype PlannedJob = PlannedJob(key: Key, deps: seq<Key>)

  datatype PlanError =
    | NoProducts | InvalidId | DuplicateProduct | MissingField | InvalidShots | MissingDependency
    | BothModels | InvalidModels | InvalidVariant

  // ------------------------------------------------------------- small checks

  predicate IdChar(c: char) { 'a' <= c <= 'z' || '0' <= c <= '9' }

  /** Lowercase ASCII kebab-case: runs of letters and digits joined by single hyphens. */
  predicate Slug(s: string) {
    && s != "" && s[0] != '-' && s[|s| - 1] != '-'
    && (forall i :: 0 <= i < |s| ==> IdChar(s[i]) || s[i] == '-')
    && (forall i :: 0 < i < |s| ==> !(s[i - 1] == '-' && s[i] == '-'))
  }

  predicate NoRepeat<T(==)>(s: seq<T>) { |Elements(s)| == |s| }

  lemma {:induction false} NoRepeatIff<T>(s: seq<T>)
    ensures NoRepeat(s) <==> Distinct(s)
  {
    if NoRepeat(s) { CardinalityDistinct(s); }
    if Distinct(s) { DistinctCardinality(s); }
  }

  // ----------------------------------------------------------------- entries

  function ViewOf(model: string, shot: Shot): View { if OfModel(shot) then Profiled(model, shot) else Plain(shot) }

  function PlainEntry(shot: Shot): Entry {
    Entry(Plain(shot), seq(|Deps(shot)|, i requires 0 <= i < |Deps(shot)| => Plain(Deps(shot)[i])))
  }

  function ProfileEntry(model: string, shot: Shot): Entry {
    Entry(ViewOf(model, shot), seq(|Deps(shot)|, i requires 0 <= i < |Deps(shot)| => ViewOf(model, Deps(shot)[i])))
  }

  function PlainEntries(shots: seq<Shot>): seq<Entry> {
    if shots == [] then [] else [PlainEntry(shots[0])] + PlainEntries(shots[1..])
  }

  function ProfileEntries(model: string, shots: seq<Shot>): seq<Entry> {
    if shots == [] then []
        else (if OfModel(shots[0]) then [ProfileEntry(model, shots[0])] else []) + ProfileEntries(model, shots[1..])
  }

  function AllProfiles(models: seq<Model>, shots: seq<Shot>): seq<Entry> {
    if models == [] then [] else ProfileEntries(models[0].id, shots) + AllProfiles(models[1..], shots)
  }

  function NotOfModel(shots: seq<Shot>): seq<Shot> { Filter((s: Shot) => !OfModel(s), shots) }

  predicate ModelOk(models: seq<Model>, i: nat)
    requires i < |models|
  {
    && Slug(models[i].id) && Trim(models[i].description) != ""
    && forall j :: 0 <= j < i ==> models[j].id != models[i].id
  }

  predicate ModelsOk(models: seq<Model>) { models != [] && forall i :: 0 <= i < |models| ==> ModelOk(models, i) }

  /** The views of a product, with what each is made from; `None` when its model profiles are not usable. */
  function ShotEntries(p: Product): Result<seq<Entry>, PlanError> {
    if p.models.Some? && p.single then Err(BothModels)
    else if p.models.None? then Ok(PlainEntries(p.shots))
    else if !ModelsOk(p.models.value) then Err(InvalidModels)
    else Ok(PlainEntries(NotOfModel(p.shots)) + AllProfiles(p.models.value, p.shots))
  }

  // -------------------------------------------------------------------- jobs

  function BaseJob(product: string, e: Entry): PlannedJob {
    PlannedJob(Key(product, None, e.view), seq(|e.deps|, i requires 0 <= i < |e.deps| => Key(product, None, e.deps[i])))
  }

  /** A variant's picture edits the base picture, in the look its own front picture has set. */
  function VariantJob(product: string, variant: string, e: Entry): PlannedJob {
    PlannedJob(Key(product, Some(variant), e.view),
               [Key(product, None, e.view)] + (if e.view == Plain(Front) then []
                   else [Key(product, Some(variant), Plain(Front))]))
  }

  function JobsFor(product: string, variant: Option<string>, entries: seq<Entry>): (jobs: seq<PlannedJob>)
    ensures |jobs| == |entries|
  {
    seq(|entries|, i requires 0 <= i < |entries| =>
      match variant case None => BaseJob(product, entries[i]) case Some(v) => VariantJob(product, v, entries[i]))
  }

  function VariantJobs(product: string, variants: seq<Variant>, entries: seq<Entry>): seq<PlannedJob> {
    if variants == [] then []
        else JobsFor(product, Some(variants[0].id), entries) + VariantJobs(product, variants[1..], entries)
  }

  predicate VariantOk(p: Product, i: nat)
    requires i < |p.variants|
  {
    var v := p.variants[i];
    var views := v.views.GetOr(p.shots);
    && Slug(v.id) && (forall j :: 0 <= j < i ==> p.variants[j].id != v.id)
    && !v.kind.OtherKind? && v.value != ""
    && Elements(views) == Elements(p.shots) && views != [] && NoRepeat(views) && Front in views
  }

  predicate ShotsOk(p: Product) { p.shots != [] && NoRepeat(p.shots) }

  predicate DepsOk(p: Product) { forall s, d :: s in p.shots && d in Deps(s) ==> d in p.shots }

  /** The jobs of one product, or why it cannot be planned. */
  function ProductJobs(p: Product): Result<seq<PlannedJob>, PlanError> {
    if !p.described then Err(MissingField)
    else if !ShotsOk(p) then Err(InvalidShots)
    else if !DepsOk(p) then Err(MissingDependency)
    else match ShotEntries(p)
      case Err(e) => Err(e)
      case Ok(entries) =>
        if exists i :: 0 <= i < |p.variants| && !VariantOk(p, i) then Err(InvalidVariant)
        else Ok(JobsFor(p.id, None, entries) + VariantJobs(p.id, p.variants, entries))
  }

  /** What the `n`-th product adds, or why it cannot be planned after the ones before it. */
  function NextJobs(products: seq<Product>, n: nat): Result<seq<PlannedJob>, PlanError>
    requires n < |products|
  {
    if !Slug(products[n].id) then Err(InvalidId)
    else if exists j :: 0 <= j < n && products[j].id == products[n].id then Err(DuplicateProduct)
    else ProductJobs(products[n])
  }

  /** The first `n` parts one after the other, or the first error among them. */
  function Gather<T>(parts: seq<Result<seq<T>, PlanError>>, n: nat): Result<seq<T>, PlanError>
    requires n <= |parts|
  {
    if n == 0 then Ok([])
    else match Gather(parts, n - 1)
      case Err(e) => Err(e)
      case Ok(before) =>
        match parts[n - 1]
        case Err(e) => Err(e)
        case Ok(more) => Ok(before + more)
  }

  function JobParts(products: seq<Product>): (parts: seq<Result<seq<PlannedJob>, PlanError>>)
    ensures |parts| == |products|
  {
    seq(|products|, i requires 0 <= i < |products| => NextJobs(products, i))
  }

  /** The jobs of the first `n` products, in order. */
  function JobsUpTo(products: seq<Product>, n: nat): Result<seq<PlannedJob>, PlanError>
    requires n <= |products|
  {
    Gather(JobParts(products), n)
  }

  function Plan(products: seq<Product>): Result<seq<PlannedJob>, PlanError> {
    if products == [] then Err(NoProducts) else JobsUpTo(products, |products|)
  }

  // -------------------------------------------------------------------- loops

  method CheckModels(models: seq<Model>) returns (ok: bool)
    ensures ok <==> ModelsOk(models)
  {
    if models == [] { return false; }
    var seen: set<string> := {};
    for i := 0 to |models|
      invariant IdsOf(models, i, seen)
      invariant forall j {:trigger ModelOk(models, j)} :: 0 <= j < i ==> ModelOk(models, j)
    {
      if !Slug(models[i].id) || models[i].id in seen || Trim(models[i].description) == "" {
        assert !ModelOk(models, i);
        return false;
      }
      assert ModelOk(models, i);
      seen := seen + {models[i].id};
    }
    return true;
  }

  ghost predicate IdsOf(models: seq<Model>, n: nat, seen: set<string>)
    requires n <= |models|
  {
    forall id :: id in seen <==> exists j :: 0 <= j < n && models[j].id == id
  }

  lemma {:induction false} PlainEntriesNext(shots: seq<Shot>, n: nat)
    requires n < |shots|
    ensures PlainEntries(shots[..n + 1]) == PlainEntries(shots[..n]) + [PlainEntry(shots[n])]
  {
    var shorter, longer := shots[..n], shots[..n + 1];
    if n == 0 {
      assert longer == [shots[0]] && longer[1..] == [];
    } else {
      PlainEntriesNext(shots[1..], n - 1);
      assert longer[1..] == shots[1..][..n] && shorter[1..] == shots[1..][..n - 1];
    }
  }

  method ListPlain(shots: seq<Shot>) returns (entries: seq<Entry>)
    ensures entries == PlainEntries(shots)
  {
    entries := [];
    for i := 0 to |shots|
      invariant entries == PlainEntries(shots[..i])
    {
      PlainEntriesNext(shots, i);
      entries := entries + [PlainEntry(shots[i])];
    }
    assert shots[..|shots|] == shots;
  }

  lemma {:induction false} ProfileEntriesNext(model: string, shots: seq<Shot>, n: nat)
    requires n < |shots|
    ensures ProfileEntries(model, shots[..n + 1])
         == ProfileEntries(model, shots[..n]) + (if OfModel(shots[n]) then [ProfileEntry(model, shots[n])] else [])
  {
    var shorter, longer := shots[..n], shots[..n + 1];
    if n == 0 {
      assert longer == [shots[0]] && longer[1..] == [];
    } else {
      ProfileEntriesNext(model, shots[1..], n - 1);
      assert longer[1..] == shots[1..][..n] && shorter[1..] == shots[1..][..n - 1];
    }
  }

  method ListProfile(model: string, shots: seq<Shot>) returns (entries: seq<Entry>)
    ensures entries == ProfileEntries(model, shots)
  {
    entries := [];
    for i := 0 to |shots|
      invariant entries == ProfileEntries(model, shots[..i])
    {
      ProfileEntriesNext(model, shots, i);
      if !OfModel(shots[i]) { continue; }
      entries := entries + [ProfileEntry(model, shots[i])];
    }
    assert shots[..|shots|] == shots;
  }

  lemma {:induction false} AllProfilesNext(models: seq<Model>, n: nat, shots: seq<Shot>)
    requires n < |models|
    ensures AllProfiles(models[..n + 1], shots) == AllProfiles(models[..n], shots) + ProfileEntries(models[n].id, shots)
  {
    var shorter, longer := models[..n], models[..n + 1];
    if n == 0 {
      assert longer == [models[0]] && longer[1..] == [];
    } else {
      AllProfilesNext(models[1..], n - 1, shots);
      assert longer[1..] == models[1..][..n] && shorter[1..] == models[1..][..n - 1];
      ConcatAssociative(ProfileEntries(models[0].id, shots), AllProfiles(shorter[1..], shots),
                        ProfileEntries(models[n].id, shots));
    }
  }

  method ListEntries(p: Product) returns (entries: Result<seq<Entry>, PlanError>)
    ensures entries == ShotEntries(p)
  {
    if p.models.Some? && p.single { return Err(BothModels); }
    if p.models.None? {
      var plain := ListPlain(p.shots);
      return Ok(plain);
    }
    var models := p.models.value;
    var usable := CheckModels(models);
    if !usable { return Err(InvalidModels); }
    var all := ListPlain(NotOfModel(p.shots));
    var profiled := ListProfiles(models, p.shots);
    return Ok(all + profiled);
  }

  method ListProfiles(models: seq<Model>, shots: seq<Shot>) returns (entries: seq<Entry>)
    ensures entries == AllProfiles(models, shots)
  {
    entries := [];
    for i := 0 to |models|
      invariant entries == AllProfiles(models[..i], shots)
    {
      var own := ListProfile(models[i].id, shots);
      AllProfilesNext(models, i, shots);
      entries := entries + own;
    }
    assert models[..|models|] == models;
  }

  lemma {:induction false} VariantJobsNext(product: string, variants: seq<Variant>, n: nat, entries: seq<Entry>)
    requires n < |variants|
    ensures VariantJobs(product, variants[..n + 1], entries)
         == VariantJobs(product, variants[..n], entries) + JobsFor(product, Some(variants[n].id), entries)
  {
    var shorter, longer := variants[..n], variants[..n + 1];
    if n == 0 {
      assert longer == [variants[0]] && longer[1..] == [];
    } else {
      VariantJobsNext(product, variants[1..], n - 1, entries);
      assert longer[1..] == variants[1..][..n] && shorter[1..] == variants[1..][..n - 1];
      ConcatAssociative(JobsFor(product, Some(variants[0].id), entries), VariantJobs(product, shorter[1..], entries),
                        JobsFor(product, Some(variants[n].id), entries));
    }
  }

  method AddJobs(product: string, variant: Option<string>, entries: seq<Entry>) returns (jobs: seq<PlannedJob>)
    ensures jobs == JobsFor(product, variant, entries)
  {
    jobs := [];
    for i := 0 to |entries|
      invariant |jobs| == i && forall j :: 0 <= j < i ==> jobs[j] == JobsFor(product, variant, entries)[j]
    {
      jobs := jobs + [match variant case None => BaseJob(product,
                                                         entries[i]) case Some(v) => VariantJob(product, v,
                                                             entries[i])];
    }
  }

  method AddVariants(p: Product, entries: seq<Entry>) returns (added: Option<seq<PlannedJob>>)
    ensures match added
            case None => exists i :: 0 <= i < |p.variants| && !VariantOk(p, i)
            case Some(jobs) =>
              && (forall i :: 0 <= i < |p.variants| ==> VariantOk(p, i))
              && jobs == VariantJobs(p.id, p.variants, entries)
  {
    var jobs: seq<PlannedJob> := [];
    for i := 0 to |p.variants|
      invariant forall j :: 0 <= j < i ==> VariantOk(p, j)
      invariant jobs == VariantJobs(p.id, p.variants[..i], entries)
    {
      if !VariantOk(p, i) { return None; }
      var more := AddJobs(p.id, Some(p.variants[i].id), entries);
      VariantJobsNext(p.id, p.variants, i, entries);
      jobs := jobs + more;
    }
    assert p.variants[..|p.variants|] == p.variants;
    return Some(jobs);
  }

  method PlanProduct(p: Product) returns (planned: Result<seq<PlannedJob>, PlanError>)
    ensures planned == ProductJobs(p)
  {
    if !p.described { return Err(MissingField); }
    if !ShotsOk(p) { return Err(InvalidShots); }
    if !DepsOk(p) { return Err(MissingDependency); }
    var entries := ListEntries(p);
    if entries.Err? { return Err(entries.error); }
    var jobs := AddJobs(p.id, None, entries.value);
    var more := AddVariants(p, entries.value);
    return match more case None => Err(InvalidVariant) case Some(added) => Ok(jobs + added);
  }

  lemma {:induction false} FailsEarly<T>(parts: seq<Result<seq<T>, PlanError>>, m: nat, n: nat)
    requires m <= n <= |parts| && Gather(parts, m).Err?
    ensures Gather(parts, n) == Gather(parts, m)
  {
    if m < n { FailsEarly(parts, m, n - 1); }
  }

  lemma {:induction false} GatherNext<T>(parts: seq<Result<seq<T>, PlanError>>, n: nat)
    requires n < |parts| && Gather(parts, n).Ok? && parts[n].Ok?
    ensures Gather(parts, n + 1).Ok? && Gather(parts, n + 1).value == Gather(parts, n).value + parts[n].value
  {
  }

  /** Gathering succeeds exactly when every part does, and gives what the parts hold. */
  lemma {:induction false} GatherOk<T>(parts: seq<Result<seq<T>, PlanError>>, n: nat)
    requires n <= |parts|
    ensures Gather(parts, n).Ok? <==> forall i :: 0 <= i < n ==> parts[i].Ok?
  {
    if n > 0 { GatherOk(parts, n - 1); }
  }

  lemma {:induction false} GatherMembers<T>(parts: seq<Result<seq<T>, PlanError>>, n: nat, x: T)
    requires n <= |parts| && Gather(parts, n).Ok?
    ensures x in Gather(parts, n).value <==> exists i :: 0 <= i < n && parts[i].Ok? && x in parts[i].value
  {
    if n > 0 { GatherMembers(parts, n - 1, x); }
  }

  ghost predicate ProductIds(products: seq<Product>, n: nat, ids: set<string>)
    requires n <= |products|
  {
    forall id :: id in ids <==> exists j :: 0 <= j < n && products[j].id == id
  }

  lemma {:induction false} MoreIds(products: seq<Product>, n: nat, ids: set<string>)
    requires n < |products| && ProductIds(products, n, ids)
    ensures ProductIds(products, n + 1, ids + {products[n].id})
  {
  }

  method PlanNext(products: seq<Product>, n: nat, ids: set<string>)
    returns (planned: Result<seq<PlannedJob>, PlanError>)
    requires n < |products| && ProductIds(products, n, ids)
    ensures planned == NextJobs(products, n)
  {
    if !Slug(products[n].id) { return Err(InvalidId); }
    if products[n].id in ids { return Err(DuplicateProduct); }
    planned := PlanProduct(products[n]);
  }

  method PlanAll(products: seq<Product>) returns (planned: Result<seq<PlannedJob>, PlanError>)
    ensures planned == Plan(products)
  {
    if products == [] { return Err(NoProducts); }
    var jobs: seq<PlannedJob> := [];
    var ids: set<string> := {};
    for n := 0 to |products|
      invariant JobsUpTo(products, n) == Ok(jobs) && ProductIds(products, n, ids)
    {
      var more := PlanNext(products, n, ids);
      if more.Err? {
        FailsEarly(JobParts(products), n + 1, |products|);
        return Err(more.error);
      }
      MoreIds(products, n, ids);
      ids := ids + {products[n].id};
      jobs := jobs + more.value;
    }
    return Ok(jobs);
  }

  // ------------------------------------------------ what a plan is like

  ghost predicate HasKey(jobs: seq<PlannedJob>, key: Key) { exists j :: j in jobs && j.key == key }

  /** No two jobs share a key, and every job waits only for jobs of the plan. */
  ghost predicate Sound(jobs: seq<PlannedJob>) {
    && (forall i, j :: 0 <= i < j < |jobs| ==> jobs[i].key != jobs[j].key)
    && (forall j, d :: j in jobs && d in j.deps ==> HasKey(jobs, d))
  }

  function ShotRank(shot: Shot): nat {
    match shot
    case Front => 0
    case Back => 1
    case Side => 1
    case Texture => 1
    case ModelFront => 1
    case ModelSide => 2
    case ModelBack => 2
    case Editorial => 2
  }

  /** How far a job stands from the pictures that wait for nothing; among variants, a longer id stands further. */
  function Rank(key: Key): nat {
    match key.variant
    case None => ShotRank(key.view.shot)
    case Some(v) => 3 + 2 * |v| + (if key.view == Plain(Front) then 0 else 1)
  }

  ghost predicate Layered(jobs: seq<PlannedJob>) { forall j, d :: j in jobs && d in j.deps ==> Rank(d) < Rank(j.key) }

  /** An entry of a product: a shot of it, with the views its dependencies are, one picture per view. */
  ghost predicate EntryOk(p: Product, e: Entry) {
    && e.view.shot in p.shots
    && (forall d :: d in e.deps ==> ShotRank(d.shot) < ShotRank(e.view.shot))
  }

  ghost predicate HasView(entries: seq<Entry>, v: View) { exists e :: e in entries && e.view == v }

  ghost predicate EntriesOk(p: Product, entries: seq<Entry>) {
    && (forall e :: e in entries ==> EntryOk(p, e))
    && (forall e, d :: e in entries && d in e.deps ==> HasView(entries, d))
    && (forall i, j :: 0 <= i < j < |entries| ==> entries[i].view != entries[j].view)
    && (Front in p.shots ==> HasView(entries, Plain(Front)))
  }

  lemma {:induction false} DepsRanked(shot: Shot)
    ensures forall d :: d in Deps(shot) ==> ShotRank(d) < ShotRank(shot)
    ensures forall d :: d in Deps(shot) && !OfModel(shot) ==> !OfModel(d)
  {
  }

  lemma {:induction false} PlainMembers(shots: seq<Shot>, e: Entry)
    ensures e in PlainEntries(shots) <==> exists s :: s in shots && e == PlainEntry(s)
  {
    if shots != [] {
      PlainMembers(shots[1..], e);
      assert shots == [shots[0]] + shots[1..];
    }
  }

  lemma {:induction false} ProfileMembers(model: string, shots: seq<Shot>, e: Entry)
    ensures e in ProfileEntries(model, shots) <==> exists s :: s in shots && OfModel(s) && e == ProfileEntry(model, s)
  {
    if shots != [] {
      ProfileMembers(model, shots[1..], e);
      assert shots == [shots[0]] + shots[1..];
    }
  }

  ghost predicate OfSome(models: seq<Model>, shots: seq<Shot>, e: Entry) {
    exists m, s :: m in models && s in shots && OfModel(s) && e == ProfileEntry(m.id, s)
  }

  lemma {:induction false} AllProfilesMembers(models: seq<Model>, shots: seq<Shot>, e: Entry)
    ensures e in AllProfiles(models, shots) <==> OfSome(models, shots, e)
  {
    if models != [] {
      AllProfilesMembers(models[1..], shots, e);
      ProfileMembers(models[0].id, shots, e);
      assert models == [models[0]] + models[1..];
    }
  }

  lemma {:induction false} PlainApart(shots: seq<Shot>)
    requires Distinct(shots)
    ensures forall i, j :: 0 <= i < j < |PlainEntries(shots)| ==>
                PlainEntries(shots)[i].view != PlainEntries(shots)[j].view
  {
    if shots != [] {
      var rest := PlainEntries(shots[1..]);
      PlainApart(shots[1..]);
      forall j | 0 <= j < |rest| ensures rest[j].view != Plain(shots[0]) {
        assert rest[j] in rest;
        PlainMembers(shots[1..], rest[j]);
        assert forall s :: s in shots[1..] ==> s != shots[0];
      }
    }
  }

  lemma {:induction false} ProfileApart(model: string, shots: seq<Shot>)
    requires Distinct(shots)
    ensures forall i, j :: 0 <= i < j < |ProfileEntries(model, shots)| ==>
                ProfileEntries(model, shots)[i].view != ProfileEntries(model, shots)[j].view
  {
    if shots != [] {
      var rest := ProfileEntries(model, shots[1..]);
      ProfileApart(model, shots[1..]);
      forall j | 0 <= j < |rest| ensures rest[j].view != ViewOf(model, shots[0]) {
        assert rest[j] in rest;
        ProfileMembers(model, shots[1..], rest[j]);
        assert forall s :: s in shots[1..] ==> s != shots[0];
      }
    }
  }

  /** Two lists without repeated views and without a shared one have none together. */
  lemma {:induction false} ViewsApart(a: seq<Entry>, b: seq<Entry>)
    requires forall i, j :: 0 <= i < j < |a| ==> a[i].view != a[j].view
    requires forall i, j :: 0 <= i < j < |b| ==> b[i].view != b[j].view
    requires forall e, f :: e in a && f in b ==> e.view != f.view
    ensures forall i, j :: 0 <= i < j < |a + b| ==> (a + b)[i].view != (a + b)[j].view
  {
    forall i, j | 0 <= i < j < |a + b| ensures (a + b)[i].view != (a + b)[j].view {
      if i < |a| <= j { assert a[i] in a && b[j - |a|] in b; }
    }
  }

  lemma {:induction false} AllProfilesApart(models: seq<Model>, shots: seq<Shot>)
    requires Distinct(shots) && forall i, j :: 0 <= i < j < |models| ==> models[i].id != models[j].id
    ensures forall i, j :: 0 <= i < j < |AllProfiles(models, shots)| ==>
                AllProfiles(models, shots)[i].view != AllProfiles(models, shots)[j].view
  {
    if models != [] {
      var own, rest := ProfileEntries(models[0].id, shots), AllProfiles(models[1..], shots);
      ProfileApart(models[0].id, shots);
      AllProfilesApart(models[1..], shots);
      forall e, f | e in own && f in rest ensures e.view != f.view {
        ProfileMembers(models[0].id, shots, e);
        AllProfilesMembers(models[1..], shots, f);
        assert forall m :: m in models[1..] ==> m.id != models[0].id;
      }
      ViewsApart(own, rest);
    }
  }

  lemma {:induction false} PlainEntriesOk(p: Product, shots: seq<Shot>)
    requires DepsOk(p) && Distinct(shots) && (forall s :: s in shots ==> s in p.shots)
    requires forall s, d :: s in shots && d in Deps(s) ==> d in shots
    requires Front in p.shots ==> Front in shots
    ensures EntriesOk(p, PlainEntries(shots))
  {
    var entries := PlainEntries(shots);
    PlainApart(shots);
    forall e | e in entries ensures EntryOk(p, e) {
      PlainMembers(shots, e);
      DepsRanked(e.view.shot);
    }
    forall e, d | e in entries && d in e.deps ensures HasView(entries, d) {
      PlainMembers(shots, e);
      assert d.shot in shots;
      PlainMembers(shots, PlainEntry(d.shot));
      assert PlainEntry(d.shot).view == d;
    }
    if Front in p.shots { PlainMembers(shots, PlainEntry(Front)); }
  }

  /** With profiles: the plain shots once, and every model shot once per profile. */
  lemma {:induction false} ProfiledEntriesOk(p: Product, models: seq<Model>)
    requires DepsOk(p) && Distinct(p.shots) && ModelsOk(models)
    ensures EntriesOk(p, PlainEntries(NotOfModel(p.shots)) + AllProfiles(models, p.shots))
  {
    var plain := NotOfModel(p.shots);
    var a, b := PlainEntries(plain), AllProfiles(models, p.shots);
    forall s { FilterMembers((s: Shot) => !OfModel(s), p.shots, s); }
    FilterDistinct((s: Shot) => !OfModel(s), p.shots);
    forall s, d | s in plain && d in Deps(s) ensures d in plain { DepsRanked(s); }
    PlainEntriesOk(p, plain);
    ProfiledApart(models, p.shots);
    forall e | e in b ensures EntryOk(p, e) && forall d :: d in e.deps ==> HasView(a + b, d) {
      ProfileEntryOk(p, models, plain, e);
    }
    forall v | HasView(a, v) ensures HasView(a + b, v) { ViewStays(a, b, v); }
  }

  lemma {:induction false} ViewStays(a: seq<Entry>, b: seq<Entry>, v: View)
    requires HasView(a, v)
    ensures HasView(a + b, v)
  {
    var f :| f in a && f.view == v;
    assert f in a + b;
  }

  lemma {:induction false} ProfiledApart(models: seq<Model>, shots: seq<Shot>)
    requires Distinct(shots) && ModelsOk(models)
    ensures var all := PlainEntries(NotOfModel(shots)) + AllProfiles(models, shots);
            forall i, j :: 0 <= i < j < |all| ==> all[i].view != all[j].view
  {
    var plain := NotOfModel(shots);
    FilterDistinct((s: Shot) => !OfModel(s), shots);
    PlainApart(plain);
    forall i, j | 0 <= i < j < |models| ensures models[i].id != models[j].id { assert ModelOk(models, j); }
    AllProfilesApart(models, shots);
    forall e, f | e in PlainEntries(plain) && f in AllProfiles(models, shots) ensures e.view != f.view {
      PlainMembers(plain, e);
      AllProfilesMembers(models, shots, f);
    }
    ViewsApart(PlainEntries(plain), AllProfiles(models, shots));
  }

  lemma {:induction false} ProfileEntryOk(p: Product, models: seq<Model>, plain: seq<Shot>, e: Entry)
    requires DepsOk(p) && (forall s :: s in plain <==> s in p.shots && !OfModel(s)) && e in AllProfiles(models, p.shots)
    ensures EntryOk(p, e)
    ensures forall d :: d in e.deps ==> HasView(PlainEntries(plain) + AllProfiles(models, p.shots), d)
  {
    AllProfilesMembers(models, p.shots, e);
    var m, s :| m in models && s in p.shots && OfModel(s) && e == ProfileEntry(m.id, s);
    DepsRanked(s);
    var all := PlainEntries(plain) + AllProfiles(models, p.shots);
    forall d | d in e.deps ensures HasView(all, d) && ShotRank(d.shot) < ShotRank(s) {
      var i :| 0 <= i < |Deps(s)| && d == ViewOf(m.id, Deps(s)[i]);
      var t := Deps(s)[i];
      assert t in Deps(s) && t in p.shots;
      if OfModel(t) {
        AllProfilesMembers(models, p.shots, ProfileEntry(m.id, t));
        assert ProfileEntry(m.id, t) in all && ProfileEntry(m.id, t).view == d;
      } else {
        PlainMembers(plain, PlainEntry(t));
        assert PlainEntry(t) in all && PlainEntry(t).view == d;
      }
    }
  }

  lemma {:induction false} ShotEntriesOk(p: Product)
    requires ShotsOk(p) && DepsOk(p) && ShotEntries(p).Ok?
    ensures EntriesOk(p, ShotEntries(p).value)
  {
    NoRepeatIff(p.shots);
    if p.models.None? { PlainEntriesOk(p, p.shots); } else { ProfiledEntriesOk(p, p.models.value); }
  }

  // --------------------------------------------------- jobs of one product

  lemma {:induction false} JobsForMembers(product: string, variant: Option<string>, entries: seq<Entry>, j: PlannedJob)
    ensures j in JobsFor(product, variant, entries) <==>
            exists e :: e in entries
                        && j == (match variant case None => BaseJob(product,
                                                                    e) case Some(v) => VariantJob(product, v, e))
  {
    var jobs := JobsFor(product, variant, entries);
    if j in jobs {
      var i :| 0 <= i < |jobs| && jobs[i] == j;
      assert entries[i] in entries;
    }
    if e :| e in entries
            && j == (match variant case None => BaseJob(product, e) case Some(v) => VariantJob(product, v, e)) {
      var i :| 0 <= i < |entries| && entries[i] == e;
      assert jobs[i] == j;
    }
  }

  lemma {:induction false} VariantJobsMembers(product: string, variants: seq<Variant>, entries: seq<Entry>,
                                              j: PlannedJob)
    ensures j in VariantJobs(product, variants, entries) <==> exists v, e ::
                v in variants && e in entries && j == VariantJob(product, v.id, e)
  {
    if variants != [] {
      VariantJobsMembers(product, variants[1..], entries, j);
      JobsForMembers(product, Some(variants[0].id), entries, j);
      assert variants == [variants[0]] + variants[1..];
    }
  }

  lemma {:induction false} KeysApart(a: seq<PlannedJob>, b: seq<PlannedJob>)
    requires forall i, j :: 0 <= i < j < |a| ==> a[i].key != a[j].key
    requires forall i, j :: 0 <= i < j < |b| ==> b[i].key != b[j].key
    requires forall x, y :: x in a && y in b ==> x.key != y.key
    ensures forall i, j :: 0 <= i < j < |a + b| ==> (a + b)[i].key != (a + b)[j].key
  {
    forall i, j | 0 <= i < j < |a + b| ensures (a + b)[i].key != (a + b)[j].key {
      if i < |a| <= j { assert a[i] in a && b[j - |a|] in b; }
    }
  }

  lemma {:induction false} VariantJobsApart(product: string, variants: seq<Variant>, entries: seq<Entry>)
    requires forall i, j :: 0 <= i < j < |variants| ==> variants[i].id != variants[j].id
    requires forall i, j :: 0 <= i < j < |entries| ==> entries[i].view != entries[j].view
    ensures forall i, j :: 0 <= i < j < |VariantJobs(product, variants, entries)| ==>
              VariantJobs(product, variants, entries)[i].key != VariantJobs(product, variants, entries)[j].key
  {
    if variants != [] {
      var own, rest := JobsFor(product, Some(variants[0].id), entries), VariantJobs(product, variants[1..], entries);
      VariantJobsApart(product, variants[1..], entries);
      forall x, y | x in own && y in rest ensures x.key != y.key {
        JobsForMembers(product, Some(variants[0].id), entries, x);
        VariantJobsMembers(product, variants[1..], entries, y);
        assert forall v :: v in variants[1..] ==> v.id != variants[0].id;
      }
      KeysApart(own, rest);
    }
  }

  /** One product's jobs: unique, closed under dependencies, layered, and all its own. */
  lemma {:induction false} ProductSound(p: Product)
    requires ProductJobs(p).Ok?
    ensures Sound(ProductJobs(p).value) && Layered(ProductJobs(p).value)
    ensures forall j :: j in ProductJobs(p).value ==> j.key.product == p.id
  {
    var entries, jobs := ShotEntries(p).value, ProductJobs(p).value;
    ShotEntriesOk(p);
    var base, more := JobsFor(p.id, None, entries), VariantJobs(p.id, p.variants, entries);
    forall i, j | 0 <= i < j < |p.variants| ensures p.variants[i].id != p.variants[j].id { assert VariantOk(p, j); }
    VariantJobsApart(p.id, p.variants, entries);
    forall x, y | x in base && y in more ensures x.key != y.key {
      JobsForMembers(p.id, None, entries, x);
      VariantJobsMembers(p.id, p.variants, entries, y);
    }
    KeysApart(base, more);
    forall j | j in jobs ensures j.key.product == p.id && forall d :: d in j.deps ==>
        HasKey(jobs, d) && Rank(d) < Rank(j.key) {
      if j in base { BaseJobSound(p, entries, j); } else { VariantJobSound(p, entries, j); }
    }
  }

  lemma {:induction false} BaseKeyed(p: Product, entries: seq<Entry>, v: View)
    requires HasView(entries, v)
    ensures HasKey(JobsFor(p.id, None, entries) + VariantJobs(p.id, p.variants, entries), Key(p.id, None, v))
  {
    var e :| e in entries && e.view == v;
    JobsForMembers(p.id, None, entries, BaseJob(p.id, e));
    assert BaseJob(p.id, e) in JobsFor(p.id, None, entries) + VariantJobs(p.id, p.variants, entries);
  }

  lemma {:induction false} BaseJobSound(p: Product, entries: seq<Entry>, j: PlannedJob)
    requires EntriesOk(p, entries) && j in JobsFor(p.id, None, entries)
    ensures j.key.product == p.id
    ensures forall d :: d in j.deps ==> HasKey(JobsFor(p.id, None, entries) + VariantJobs(p.id, p.variants, entries), d)
                                        && Rank(d) < Rank(j.key)
  {
    JobsForMembers(p.id, None, entries, j);
    var e :| e in entries && j == BaseJob(p.id, e);
    assert EntryOk(p, e);
    forall d | d in j.deps ensures HasKey(JobsFor(p.id, None, entries) + VariantJobs(p.id, p.variants, entries), d)
               && Rank(d) < Rank(j.key) {
      var i :| 0 <= i < |e.deps| && d == Key(p.id, None, e.deps[i]);
      assert e.deps[i] in e.deps;
      BaseKeyed(p, entries, e.deps[i]);
    }
  }

  lemma {:induction false} VariantJobSound(p: Product, entries: seq<Entry>, j: PlannedJob)
    requires EntriesOk(p, entries) && j in VariantJobs(p.id, p.variants, entries)
    requires forall i :: 0 <= i < |p.variants| ==> VariantOk(p, i)
    ensures j.key.product == p.id
    ensures forall d :: d in j.deps ==> HasKey(JobsFor(p.id, None, entries) + VariantJobs(p.id, p.variants, entries), d)
                                        && Rank(d) < Rank(j.key)
  {
    VariantJobsMembers(p.id, p.variants, entries, j);
    var v, e :| v in p.variants && e in entries && j == VariantJob(p.id, v.id, e);
    var i :| 0 <= i < |p.variants| && p.variants[i] == v;
    assert VariantOk(p, i);
    assert Front in Elements(v.views.GetOr(p.shots));
    assert Front in p.shots;
    BaseKeyed(p, entries, e.view);
    var front :| front in entries && front.view == Plain(Front);
    VariantJobsMembers(p.id, p.variants, entries, VariantJob(p.id, v.id, front));
    assert VariantJob(p.id, v.id, front) in JobsFor(p.id, None, entries) + VariantJobs(p.id, p.variants, entries);
    assert ShotRank(e.view.shot) <= 2;
  }

  // -------------------------------------------------------- jobs of the plan

  /** Two sound sets of jobs of different products are sound together. */
  lemma {:induction false} SoundTogether(a: seq<PlannedJob>, b: seq<PlannedJob>)
    requires Sound(a) && Sound(b) && Layered(a) && Layered(b)
    requires forall x, y :: x in a && y in b ==> x.key.product != y.key.product
    ensures Sound(a + b) && Layered(a + b)
  {
    KeysApart(a, b);
    forall j, d | j in a + b && d in j.deps ensures HasKey(a + b, d) {
      if j in a {
        assert HasKey(a, d);
        var x :| x in a && x.key == d;
        assert x in a + b;
      } else {
        assert HasKey(b, d);
        var x :| x in b && x.key == d;
        assert x in a + b;
      }
    }
  }

  /** The parts of a plan, each of its own product. */
  ghost predicate SoundParts(parts: seq<Result<seq<PlannedJob>, PlanError>>, owners: seq<string>) {
    && |owners| == |parts| && Distinct(owners)
    && (forall i {:trigger SoundPart(parts[i], owners[i])} :: 0 <= i < |parts| && parts[i].Ok? ==>
                                                                  SoundPart(parts[i], owners[i]))
  }

  ghost predicate SoundPart(part: Result<seq<PlannedJob>, PlanError>, owner: string) {
    part.Ok? && Sound(part.value) && Layered(part.value) && forall j :: j in part.value ==> j.key.product == owner
  }

  lemma {:induction false} SoundUpTo(parts: seq<Result<seq<PlannedJob>, PlanError>>, owners: seq<string>, n: nat)
    requires n <= |parts| && SoundParts(parts, owners) && Gather(parts, n).Ok?
    ensures Sound(Gather(parts, n).value) && Layered(Gather(parts, n).value)
  {
    if n > 0 {
      SoundUpTo(parts, owners, n - 1);
      assert SoundPart(parts[n - 1], owners[n - 1]);
      forall x, y | x in Gather(parts, n - 1).value && y in parts[n - 1].value ensures x.key.product != y.key.product {
        GatherMembers(parts, n - 1, x);
        var i :| 0 <= i < n - 1 && parts[i].Ok? && x in parts[i].value;
        assert SoundPart(parts[i], owners[i]);
      }
      SoundTogether(Gather(parts, n - 1).value, parts[n - 1].value);
    }
  }

  lemma {:induction false} NextSound(products: seq<Product>, n: nat)
    requires n < |products| && NextJobs(products, n).Ok?
    ensures SoundPart(NextJobs(products, n), products[n].id)
    ensures Slug(products[n].id) && forall j :: 0 <= j < n ==> products[j].id != products[n].id
  {
    ProductSound(products[n]);
  }

  /** What each product of an accepted plan is. */
  lemma {:induction false} EachAccepted(products: seq<Product>, i: nat)
    requires Plan(products).Ok? && i < |products|
    ensures NextJobs(products, i).Ok? && ProductJobs(products[i]).Ok? && Slug(products[i].id)
    ensures NextJobs(products, i) == ProductJobs(products[i]) == JobParts(products)[i]
  {
    GatherOk(JobParts(products), |products|);
    assert JobParts(products)[i].Ok?;
  }

  /** Every accepted plan has unique jobs, dependencies only on its own jobs, and no cycle: a dependency ranks lower. */
  lemma {:induction false} PlanSound(products: seq<Product>)
    requires Plan(products).Ok?
    ensures Sound(Plan(products).value) && Layered(Plan(products).value) && Plan(products).value != []
  {
    var parts, owners := JobParts(products), seq(|products|, i requires 0 <= i < |products| => products[i].id);
    forall i | 0 <= i < |parts| ensures SoundPart(parts[i], owners[i]) && forall j :: 0 <= j < i ==>
        owners[j] != owners[i] {
      EachAccepted(products, i);
      NextSound(products, i);
    }
    SoundUpTo(parts, owners, |products|);
    PlanNotEmpty(products);
  }

  lemma {:induction false} PlanNotEmpty(products: seq<Product>)
    requires Plan(products).Ok?
    ensures Plan(products).value != []
  {
    EachAccepted(products, 0);
    ProductNotEmpty(products[0]);
    var j := ProductJobs(products[0]).value[0];
    GatherMembers(JobParts(products), |products|, j);
  }

  lemma {:induction false} ProductNotEmpty(p: Product)
    requires ProductJobs(p).Ok?
    ensures ProductJobs(p).value != []
  {
    var entries := ShotEntries(p).value;
    assert p.shots[0] in p.shots;
    if p.models.None? {
      assert PlainEntries(p.shots) != [];
    } else if OfModel(p.shots[0]) {
      assert p.models.value[0] in p.models.value;
      AllProfilesMembers(p.models.value, p.shots, ProfileEntry(p.models.value[0].id, p.shots[0]));
    } else {
      FilterMembers((s: Shot) => !OfModel(s), p.shots, p.shots[0]);
      PlainMembers(NotOfModel(p.shots), PlainEntry(p.shots[0]));
    }
    assert entries != [];
    assert JobsFor(p.id, None, entries) != [];
  }

  // -------------------------------------------------------------- coverage

  /** The keys coverage expects of one product: every view, plain and under each variant. */
  function ExpectedOf(p: Product, entries: seq<Entry>): seq<Key> {
    KeysOf(p.id, None, entries) + VariantKeys(p.id, p.variants, entries)
  }

  function KeysOf(product: string, variant: Option<string>, entries: seq<Entry>): (keys: seq<Key>)
    ensures |keys| == |entries|
  {
    seq(|entries|, i requires 0 <= i < |entries| => Key(product, variant, entries[i].view))
  }

  function VariantKeys(product: string, variants: seq<Variant>, entries: seq<Entry>): seq<Key> {
    if variants == [] then []
        else KeysOf(product, Some(variants[0].id), entries) + VariantKeys(product, variants[1..], entries)
  }

  function JobKeys(jobs: seq<PlannedJob>): (keys: seq<Key>)
    ensures |keys| == |jobs|
  {
    seq(|jobs|, i requires 0 <= i < |jobs| => jobs[i].key)
  }

  function KeyPart(p: Product): Result<seq<Key>, PlanError> {
    match ShotEntries(p)
    case Err(e) => Err(e)
    case Ok(entries) => Ok(ExpectedOf(p, entries))
  }

  function KeyParts(products: seq<Product>): (parts: seq<Result<seq<Key>, PlanError>>)
    ensures |parts| == |products|
  {
    seq(|products|, i requires 0 <= i < |products| => KeyPart(products[i]))
  }

  /** What coverage expects of a whole set of products; a set that cannot list its entries is an error. */
  function Expected(products: seq<Product>, n: nat): Result<seq<Key>, PlanError>
    requires n <= |products|
  {
    Gather(KeyParts(products), n)
  }

  lemma {:induction false} VariantKeysAre(product: string, variants: seq<Variant>, entries: seq<Entry>)
    ensures VariantKeys(product, variants, entries) == JobKeys(VariantJobs(product, variants, entries))
  {
    if variants != [] {
      VariantKeysAre(product, variants[1..], entries);
      var own, rest := JobsFor(product, Some(variants[0].id), entries), VariantJobs(product, variants[1..], entries);
      assert JobKeys(own) == KeysOf(product, Some(variants[0].id), entries);
      assert JobKeys(own + rest) == JobKeys(own) + JobKeys(rest);
    }
  }

  lemma {:induction false} JobKeysConcat(a: seq<PlannedJob>, b: seq<PlannedJob>)
    ensures JobKeys(a + b) == JobKeys(a) + JobKeys(b)
  {
  }

  lemma {:induction false} ProductCoverage(p: Product, entries: seq<Entry>)
    ensures ExpectedOf(p, entries) == JobKeys(JobsFor(p.id, None, entries) + VariantJobs(p.id, p.variants, entries))
  {
    VariantKeysAre(p.id, p.variants, entries);
    assert JobKeys(JobsFor(p.id, None, entries)) == KeysOf(p.id, None, entries);
    JobKeysConcat(JobsFor(p.id, None, entries), VariantJobs(p.id, p.variants, entries));
  }

  lemma {:induction false} PartCoverage(p: Product)
    requires ProductJobs(p).Ok?
    ensures KeyPart(p) == Ok(JobKeys(ProductJobs(p).value))
  {
    ProductCoverage(p, ShotEntries(p).value);
  }

  lemma {:induction false} GatherKeys(jobs: seq<Result<seq<PlannedJob>, PlanError>>,
                                      keys: seq<Result<seq<Key>, PlanError>>, n: nat)
    requires |keys| == |jobs| && n <= |jobs|
    requires forall i :: 0 <= i < n ==> jobs[i].Ok? && keys[i] == Ok(JobKeys(jobs[i].value))
    ensures Gather(jobs, n).Ok? && Gather(keys, n) == Ok(JobKeys(Gather(jobs, n).value))
  {
    if n > 0 {
      GatherKeys(jobs, keys, n - 1);
      JobKeysConcat(Gather(jobs, n - 1).value, jobs[n - 1].value);
    }
  }

  /** Coverage expects exactly the planned jobs, one key each and in the same order. */
  lemma {:induction false} CoverageIsPlan(products: seq<Product>)
    requires Plan(products).Ok?
    ensures Expected(products, |products|) == Ok(JobKeys(Plan(products).value))
  {
    forall i | 0 <= i < |products|
      ensures JobParts(products)[i].Ok? && KeyParts(products)[i] == Ok(JobKeys(JobParts(products)[i].value))
    {
      EachAccepted(products, i);
      PartCoverage(products[i]);
    }
    GatherKeys(JobParts(products), KeyParts(products), |products|);
  }
}
