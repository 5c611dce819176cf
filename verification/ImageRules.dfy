/** The rules of a picture plan, apart from the loops that apply them: which requests are planned, and what waits. */
module ImageRules {
  import opened Prelude
  import opened Texts
  import opened ImagePlan
  import opened ImageNames

  // ------------------------------------------------------------ what waits for what

  /** One shot is made from another. */
  ghost predicate MadeFrom(shot: Shot, from: Shot) {
    || (from.Front? && !shot.Front?)
    || (from.Back? && shot.ModelBack?)
    || (from.ModelFront? && (shot.ModelSide? || shot.ModelBack? || shot.Editorial?))
  }

  lemma {:induction false} DepsAre(shot: Shot, from: Shot)
    ensures from in Deps(shot) <==> MadeFrom(shot, from)
  {
  }

  /** A view is made from another: of the same model, where that one shows a model. */
  ghost predicate ViewFrom(view: View, from: View) {
    && MadeFrom(view.shot, from.shot)
    && (from.Profiled? <==> view.Profiled? && OfModel(from.shot))
    && (from.Profiled? ==> from.model == view.model)
  }

  lemma {:induction false} PlainFrom(shot: Shot, from: View)
    ensures from in PlainEntry(shot).deps <==> ViewFrom(Plain(shot), from)
  {
    var e := PlainEntry(shot);
    DepsAre(shot, from.shot);
    if ViewFrom(Plain(shot), from) {
      var i :| 0 <= i < |Deps(shot)| && Deps(shot)[i] == from.shot;
      assert e.deps[i] == from;
    }
  }

  lemma {:induction false} ProfileFrom(model: string, shot: Shot, from: View)
    requires OfModel(shot)
    ensures from in ProfileEntry(model, shot).deps <==> ViewFrom(Profiled(model, shot), from)
  {
    var e := ProfileEntry(model, shot);
    DepsAre(shot, from.shot);
    if ViewFrom(Profiled(model, shot), from) {
      var i :| 0 <= i < |Deps(shot)| && Deps(shot)[i] == from.shot;
      assert e.deps[i] == from;
    }
  }

  lemma {:induction false} EntryFrom(p: Product, e: Entry, from: View)
    requires ShotEntries(p).Ok? && e in ShotEntries(p).value
    ensures from in e.deps <==> ViewFrom(e.view, from)
  {
    if p.models.None? {
      PlainMembers(p.shots, e);
      PlainFrom(e.view.shot, from);
    } else if e in PlainEntries(NotOfModel(p.shots)) {
      PlainMembers(NotOfModel(p.shots), e);
      PlainFrom(e.view.shot, from);
    } else {
      AllProfilesMembers(p.models.value, p.shots, e);
      var m, s :| m in p.models.value && s in p.shots && OfModel(s) && e == ProfileEntry(m.id, s);
      ProfileFrom(m.id, s, from);
    }
  }

  /**
   * What a planned picture waits for. A picture of the product itself: the views it is made from. A picture of a
   * variant: the same view of the product, and unless it is the front, the variant's own front.
   */
  ghost predicate WaitsFor(key: Key, d: Key) {
    && d.product == key.product
    && if key.variant.None? then d.variant.None? && ViewFrom(key.view, d.view)
       else || (d.variant.None? && d.view == key.view)
            || (d.variant == key.variant && d.view == Plain(Front) && key.view != Plain(Front))
  }

  /** Every planned job waits for exactly these. */
  lemma {:induction false} PlanWaits(products: seq<Product>, j: PlannedJob, d: Key)
    requires Plan(products).Ok? && j in Plan(products).value
    ensures d in j.deps <==> WaitsFor(j.key, d)
  {
    var i := PartOf(products, j);
    EachAccepted(products, i);
    ProductWaits(products[i], j, d);
  }

  lemma {:induction false} ProductWaits(p: Product, j: PlannedJob, d: Key)
    requires ProductJobs(p).Ok? && j in ProductJobs(p).value
    ensures d in j.deps <==> WaitsFor(j.key, d)
  {
    var entries := ShotEntries(p).value;
    if j in JobsFor(p.id, None, entries) {
      JobsForMembers(p.id, None, entries, j);
      var e :| e in entries && j == BaseJob(p.id, e);
      EntryFrom(p, e, d.view);
      if WaitsFor(j.key, d) {
        var k :| 0 <= k < |e.deps| && e.deps[k] == d.view;
        assert j.deps[k] == d;
      }
    } else {
      VariantJobsMembers(p.id, p.variants, entries, j);
    }
  }

  // ------------------------------------------------------- which requests are planned

  /** A nonempty run of lowercase letters and digits. */
  ghost predicate Word(s: string) { s != "" && forall i :: 0 <= i < |s| ==> IdChar(s[i]) }

  /** Words joined by single hyphens. */
  ghost predicate Kebab(s: string) {
    exists words: seq<string> :: words != [] && (forall i :: 0 <= i < |words| ==> Word(words[i]))
                                 && Join(words, '-') == s
  }

  /** The check character by character accepts exactly the words joined by single hyphens. */
  lemma {:induction false} SlugIff(s: string)
    ensures Slug(s) <==> Kebab(s)
  {
    if Slug(s) { var words := SlugSplits(s); }
    if Kebab(s) {
      var words :| words != [] && (forall i :: 0 <= i < |words| ==> Word(words[i])) && Join(words, '-') == s;
      JoinedSlug(words);
    }
  }

  lemma {:induction false} JoinedSlug(words: seq<string>)
    requires words != [] && forall i :: 0 <= i < |words| ==> Word(words[i])
    ensures Slug(Join(words, '-'))
  {
    var s, w := Join(words, '-'), words[0];
    assert Word(w);
    if |words| > 1 {
      var rest := Join(words[1..], '-');
      JoinedSlug(words[1..]);
      assert s == w + ['-'] + rest;
      assert forall i :: |w| < i < |s| ==> s[i] == rest[i - |w| - 1];
    }
  }

  lemma {:induction false} SlugSplits(s: string) returns (words: seq<string>)
    requires Slug(s)
    ensures words != [] && Join(words, '-') == s
    ensures forall i :: 0 <= i < |words| ==> Word(words[i])
  {
    if '-' !in s {
      words := [s];
      assert Word(s);
    } else {
      var at := IndexOf(s, '-');
      SplitSlug(s, at);
      var rest := SlugSplits(s[at + 1..]);
      JoinMore(s[..at], rest);
      words := [s[..at]] + rest;
      assert s == s[..at] + ['-'] + s[at + 1..];
    }
  }

  lemma {:induction false} SplitSlug(s: string, at: nat)
    requires Slug(s) && at < |s| && s[at] == '-' && forall j :: 0 <= j < at ==> s[j] != '-'
    ensures Word(s[..at]) && Slug(s[at + 1..])
  {
    var rest := s[at + 1..];
    assert at + 1 < |s| && rest[0] == s[at + 1] && rest[|rest| - 1] == s[|s| - 1];
  }

  lemma {:induction false} JoinMore(w: string, words: seq<string>)
    requires words != [] && Word(w) && forall i :: 0 <= i < |words| ==> Word(words[i])
    ensures Join([w] + words, '-') == w + ['-'] + Join(words, '-')
    ensures forall i :: 0 <= i < |[w] + words| ==> Word(([w] + words)[i])
  {
    assert ([w] + words)[1..] == words;
  }

  /** Shots are listed once each, with every shot that one of them is made from. */
  ghost predicate ShotsPlannable(shots: seq<Shot>) {
    shots != [] && Distinct(shots) && forall s, from :: s in shots && MadeFrom(s, from) ==> from in shots
  }

  ghost predicate ModelsPlannable(models: seq<Model>) {
    && models != []
    && (forall i :: 0 <= i < |models| ==> Kebab(models[i].id) && Trim(models[i].description) != "")
    && forall i, j :: 0 <= i < j < |models| ==> models[i].id != models[j].id
  }

  /** A variant changes color or material to something, under every shot of the product. */
  ghost predicate VariantPlannable(p: Product, v: Variant) {
    && Kebab(v.id) && (v.kind.Color? || v.kind.Material?) && v.value != ""
    && (v.views.Some? ==> Distinct(v.views.value) && forall s :: s in v.views.value <==> s in p.shots)
  }

  ghost predicate Plannable(p: Product) {
    && Kebab(p.id) && p.described && ShotsPlannable(p.shots)
    && (p.models.Some? ==> !p.single && ModelsPlannable(p.models.value))
    && (forall i :: 0 <= i < |p.variants| ==> VariantPlannable(p, p.variants[i]))
    && forall i, j :: 0 <= i < j < |p.variants| ==> p.variants[i].id != p.variants[j].id
  }

  /** A plan is made exactly for products of different ids that are each plannable, at least one. */
  lemma {:induction false} PlannedIff(products: seq<Product>)
    ensures Plan(products).Ok?
       <==> && products != [] && (forall n :: 0 <= n < |products| ==> Plannable(products[n]))
            && forall i, j :: 0 <= i < j < |products| ==> products[i].id != products[j].id
  {
    if products != [] {
      GatherOk(JobParts(products), |products|);
      forall n | 0 <= n < |products| ensures JobParts(products)[n].Ok? <==> NextPlannable(products, n) {
        NextJobsIff(products, n);
      }
      AllNext(products);
    }
  }

  lemma {:induction false} AllNext(products: seq<Product>)
    ensures (forall n :: 0 <= n < |products| ==> NextPlannable(products, n))
       <==> && (forall n :: 0 <= n < |products| ==> Plannable(products[n]))
            && forall i, j :: 0 <= i < j < |products| ==> products[i].id != products[j].id
  {
    if forall n :: 0 <= n < |products| ==> NextPlannable(products, n) {
      forall i, j | 0 <= i < j < |products| ensures products[i].id != products[j].id {
        assert NextPlannable(products, j);
      }
      forall n | 0 <= n < |products| ensures Plannable(products[n]) { assert NextPlannable(products, n); }
    }
  }

  ghost predicate NextPlannable(products: seq<Product>, n: nat)
    requires n < |products|
  {
    Plannable(products[n]) && forall j :: 0 <= j < n ==> products[j].id != products[n].id
  }

  lemma {:induction false} NextJobsIff(products: seq<Product>, n: nat)
    requires n < |products|
    ensures NextJobs(products, n).Ok? <==> NextPlannable(products, n)
  {
    SlugIff(products[n].id);
    ProductJobsIff(products[n]);
  }

  lemma {:induction false} ProductJobsIff(p: Product)
    ensures Kebab(p.id) ==> (ProductJobs(p).Ok? <==> Plannable(p))
  {
    ShotsIff(p);
    if p.models.Some? { ModelsIff(p.models.value); }
    if ShotsPlannable(p.shots) { VariantsIff(p); }
  }

  lemma {:induction false} ShotsIff(p: Product)
    ensures ShotsOk(p) && DepsOk(p) <==> ShotsPlannable(p.shots)
  {
    NoRepeatIff(p.shots);
    forall s, from ensures from in Deps(s) <==> MadeFrom(s, from) { DepsAre(s, from); }
  }

  lemma {:induction false} ModelsIff(models: seq<Model>)
    ensures ModelsOk(models) <==> ModelsPlannable(models)
  {
    forall i | 0 <= i < |models| ensures Slug(models[i].id) <==> Kebab(models[i].id) { SlugIff(models[i].id); }
    if ModelsOk(models) {
      forall i, j | 0 <= i < j < |models| ensures models[i].id != models[j].id { assert ModelOk(models, j); }
      forall i | 0 <= i < |models| ensures Kebab(models[i].id) && Trim(models[i].description) != "" {
        assert ModelOk(models, i);
      }
    }
  }

  /** Without repeats the front is among the shots, so a variant that covers them covers it. */
  lemma {:induction false} FrontListed(shots: seq<Shot>)
    requires ShotsPlannable(shots)
    ensures Front in shots
  {
    assert shots[0] in shots;
    assert shots[0].Front? || MadeFrom(shots[0], Front);
  }

  lemma {:induction false} VariantIff(p: Product, i: nat)
    requires ShotsPlannable(p.shots) && i < |p.variants|
    ensures VariantOk(p, i)
       <==> VariantPlannable(p, p.variants[i]) && forall j :: 0 <= j < i ==> p.variants[j].id != p.variants[i].id
  {
    var v := p.variants[i];
    SlugIff(v.id);
    FrontListed(p.shots);
    NoRepeatIff(p.shots);
    if v.views.Some? {
      NoRepeatIff(v.views.value);
      SameElements(v.views.value, p.shots);
    }
  }

  lemma {:induction false} SameElements<T>(a: seq<T>, b: seq<T>)
    ensures Elements(a) == Elements(b) <==> forall x :: x in a <==> x in b
  {
    assert forall x :: (x in Elements(a) <==> x in a) && (x in Elements(b) <==> x in b);
  }

  lemma {:induction false} VariantsIff(p: Product)
    requires ShotsPlannable(p.shots)
    ensures (forall i :: 0 <= i < |p.variants| ==> VariantOk(p, i))
       <==> && (forall i :: 0 <= i < |p.variants| ==> VariantPlannable(p, p.variants[i]))
            && forall i, j :: 0 <= i < j < |p.variants| ==> p.variants[i].id != p.variants[j].id
  {
    forall i | 0 <= i < |p.variants|
      ensures VariantOk(p, i)
         <==> VariantPlannable(p, p.variants[i]) && forall j :: 0 <= j < i ==> p.variants[j].id != p.variants[i].id
    {
      VariantIff(p, i);
    }
  }

  // ---------------------------------------------------------------- which refusal comes

  /** Why a product with a good id of its own is not planned: the first of the checks that fails. */
  ghost predicate RefusedFor(p: Product, e: PlanError) {
    match e
    case MissingField => !p.described
    case InvalidShots => p.described && (p.shots == [] || !Distinct(p.shots))
    case MissingDependency => p.described && p.shots != [] && Distinct(p.shots) && !ShotsPlannable(p.shots)
    case BothModels => p.described && ShotsPlannable(p.shots) && p.models.Some? && p.single
    case InvalidModels =>
      p.described && ShotsPlannable(p.shots) && p.models.Some? && !p.single && !ModelsPlannable(p.models.value)
    case InvalidVariant => !Plannable(p) && Plannable(p.(variants := []))
    case _ => false
  }

  lemma {:induction false} ProductRefusedFor(p: Product)
    requires Kebab(p.id) && ProductJobs(p).Err?
    ensures RefusedFor(p, ProductJobs(p).error)
  {
    NoRepeatIff(p.shots);
    ShotsIff(p);
    if p.models.Some? { ModelsIff(p.models.value); }
    ProductJobsIff(p);
    ProductJobsIff(p.(variants := []));
  }

  /** A refused plan answers for its first product that is not plannable or has the id of one before it. */
  lemma {:induction false} RefusedAt(products: seq<Product>) returns (n: nat)
    requires products != [] && Plan(products).Err?
    ensures n < |products| && !NextPlannable(products, n)
    ensures forall i :: 0 <= i < n ==> NextPlannable(products, i)
    ensures var e := Plan(products).error;
            if !Kebab(products[n].id) then e == InvalidId
            else if exists j :: 0 <= j < n && products[j].id == products[n].id then e == DuplicateProduct
            else RefusedFor(products[n], e)
  {
    n := FirstErr(JobParts(products), |products|);
    forall i | 0 <= i <= n ensures NextJobs(products, i).Ok? <==> NextPlannable(products, i) {
      NextJobsIff(products, i);
    }
    assert forall i :: 0 <= i < n ==> JobParts(products)[i] == NextJobs(products, i);
    SlugIff(products[n].id);
    if ProductJobs(products[n]).Err? && Kebab(products[n].id) { ProductRefusedFor(products[n]); }
  }

  lemma {:induction false} FirstErr<T>(parts: seq<Result<seq<T>, PlanError>>, n: nat) returns (at: nat)
    requires n <= |parts| && Gather(parts, n).Err?
    ensures at < n && parts[at].Err? && Gather(parts, n).error == parts[at].error
    ensures forall i :: 0 <= i < at ==> parts[i].Ok?
  {
    if Gather(parts, n - 1).Err? {
      at := FirstErr(parts, n - 1);
    } else {
      GatherOk(parts, n - 1);
      at := n - 1;
    }
  }

  // ----------------------------------------------------------------------------- ids

  const SHOTS := [Front, Back, Side, Texture, ModelFront, ModelSide, ModelBack, Editorial]
  const NAMES := ["front", "back", "side", "texture", "model-front", "model-side", "model-back", "editorial"]

  /** The id of a picture: its product, its variant when it has one, and its shot. */
  lemma {:induction false} IdsAre(product: string, variant: string, n: nat)
    requires n < 8
    ensures RenderedId(Key(product, None, Plain(SHOTS[n]))) == product + "/" + NAMES[n]
    ensures RenderedId(Key(product, Some(variant), Plain(SHOTS[n]))) == product + "/variant-" + variant + "-" + NAMES[n]
  {
    ShotNamesAre(n);
    var name := NAMES[n];
    assert product + "/" + ("" + name) == product + "/" + name;
    assert product + "/" + ("variant-" + variant + "-" + name) == product + "/variant-" + variant + "-" + name;
  }

  lemma {:induction false} ShotNamesAre(n: nat)
    requires n < 8
    ensures ShotName(SHOTS[n]) == NAMES[n]
  {
  }

  const ON_MODEL := ["-front", "-side", "-back", "-editorial"]

  /** Of one model among several, the model's id stands before what it shows. */
  lemma {:induction false} ModelNamesAre(model: string, n: nat)
    requires n < 4
    ensures ViewName(Profiled(model, SHOTS[4 + n])) == "model-" + model + ON_MODEL[n]
  {
    assert ON_MODEL[n] == "-" + Aspect(SHOTS[4 + n]);
  }
}
