/** The ids planned pictures go by: when two pictures share one, and what looking a dependency up by its id finds. */
module ImageNames {
  import opened Prelude
  import opened Texts
  import opened ImagePlan

  /** A shot's name without the `model-` in front. */
  function Aspect(shot: Shot): (part: string)
    ensures '-' !in part
  {
    match shot
    case Front => "front"
    case Back => "back"
    case Side => "side"
    case Texture => "texture"
    case ModelFront => "front"
    case ModelSide => "side"
    case ModelBack => "back"
    case Editorial => "editorial"
  }

  function ShotName(shot: Shot): string {
    match shot
    case ModelFront => "model-front"
    case ModelSide => "model-side"
    case ModelBack => "model-back"
    case _ => Aspect(shot)
  }

  /** A view's name: the shot's own, or under a profile with the profile's id inside. */
  function ViewName(view: View): string {
    match view
    case Plain(shot) => ShotName(shot)
    case Profiled(model, shot) => "model-" + model + "-" + Aspect(shot)
  }

  function Head(variant: Option<string>): string {
    match variant
    case None => ""
    case Some(v) => "variant-" + v + "-"
  }

  /** The string a job is written under, looked up by, and stored as. */
  function RenderedId(key: Key): string { key.product + "/" + (Head(key.variant) + ViewName(key.view)) }

  function RenderedIds(keys: seq<Key>): (ids: seq<string>)
    ensures |ids| == |keys|
  {
    seq(|keys|, i requires 0 <= i < |keys| => RenderedId(keys[i]))
  }

  /** What `{j.id: j}[id]` finds: the last job of that id. */
  function LastIndex(ids: seq<string>, id: string): (at: Option<nat>)
    ensures at.Some? ==> at.value < |ids| && ids[at.value] == id && forall i :: at.value < i < |ids| ==> ids[i] != id
    ensures at.None? ==> forall i :: 0 <= i < |ids| ==> ids[i] != id
  {
    if ids == [] then None
    else if ids[|ids| - 1] == id then Some(|ids| - 1)
    else LastIndex(ids[..|ids| - 1], id)
  }

  // ---------------------------------------------------- which views are planned

  /** The views a product asks for, without saying in which order they are listed. */
  ghost predicate Listed(p: Product, view: View) {
    && view.shot in p.shots
    && match view
       case Plain(shot) => p.models.Some? ==> !OfModel(shot)
       case Profiled(model, shot) => OfModel(shot) && p.models.Some? && exists m :: m in p.models.value && m.id == model
  }

  ghost predicate OfVariant(p: Product, variant: Option<string>) {
    variant.Some? ==> exists v :: v in p.variants && v.id == variant.value
  }

  /** Every view of the product, as it is and in the look of each variant. */
  ghost predicate Planned(p: Product, key: Key) {
    key.product == p.id && Listed(p, key.view) && OfVariant(p, key.variant)
  }

  lemma {:induction false} ListedEntries(p: Product, view: View)
    requires ShotEntries(p).Ok?
    ensures HasView(ShotEntries(p).value, view) <==> Listed(p, view)
  {
    if p.models.None? { ListedPlain(p, view); } else { ListedProfiled(p, view); }
  }

  lemma {:induction false} ListedPlain(p: Product, view: View)
    requires p.models.None?
    ensures HasView(PlainEntries(p.shots), view) <==> Listed(p, view)
  {
    PlainViews(p.shots, view);
  }

  lemma {:induction false} PlainViews(shots: seq<Shot>, view: View)
    ensures HasView(PlainEntries(shots), view) <==> view.Plain? && view.shot in shots
  {
    if HasView(PlainEntries(shots), view) {
      var e :| e in PlainEntries(shots) && e.view == view;
      PlainMembers(shots, e);
    }
    if view.Plain? && view.shot in shots { PlainMembers(shots, PlainEntry(view.shot)); }
  }

  lemma {:induction false} ProfileViews(models: seq<Model>, shots: seq<Shot>, view: View)
    ensures HasView(AllProfiles(models, shots), view)
       <==> view.Profiled? && view.shot in shots && OfModel(view.shot) && exists m :: m in models && m.id == view.model
  {
    if HasView(AllProfiles(models, shots), view) {
      var e :| e in AllProfiles(models, shots) && e.view == view;
      AllProfilesMembers(models, shots, e);
    }
    if view.Profiled? && view.shot in shots && OfModel(view.shot) && exists m :: m in models && m.id == view.model {
      var m :| m in models && m.id == view.model;
      AllProfilesMembers(models, shots, ProfileEntry(m.id, view.shot));
    }
  }

  lemma {:induction false} EitherView(a: seq<Entry>, b: seq<Entry>, view: View)
    ensures HasView(a + b, view) <==> HasView(a, view) || HasView(b, view)
  {
    assert forall e :: e in a + b <==> e in a || e in b;
  }

  lemma {:induction false} ListedProfiled(p: Product, view: View)
    requires p.models.Some?
    ensures HasView(PlainEntries(NotOfModel(p.shots)) + AllProfiles(p.models.value, p.shots), view) <==> Listed(p, view)
  {
    EitherView(PlainEntries(NotOfModel(p.shots)), AllProfiles(p.models.value, p.shots), view);
    PlainViews(NotOfModel(p.shots), view);
    ProfileViews(p.models.value, p.shots, view);
    FilterMembers((s: Shot) => !OfModel(s), p.shots, view.shot);
  }

  lemma {:induction false} BaseKeys(product: string, entries: seq<Entry>, key: Key)
    ensures HasKey(JobsFor(product, None, entries), key) <==> key.product == product && key.variant.None?
                                                              && HasView(entries, key.view)
  {
    if HasKey(JobsFor(product, None, entries), key) {
      var j :| j in JobsFor(product, None, entries) && j.key == key;
      JobsForMembers(product, None, entries, j);
    }
    if key.product == product && key.variant.None? && HasView(entries, key.view) {
      var e :| e in entries && e.view == key.view;
      JobsForMembers(product, None, entries, BaseJob(product, e));
    }
  }

  lemma {:induction false} VariantsKeys(product: string, variants: seq<Variant>, entries: seq<Entry>, key: Key)
    ensures HasKey(VariantJobs(product, variants, entries), key)
       <==> && key.product == product && key.variant.Some? && HasView(entries, key.view)
            && exists v :: v in variants && v.id == key.variant.value
  {
    if HasKey(VariantJobs(product, variants, entries), key) {
      var j :| j in VariantJobs(product, variants, entries) && j.key == key;
      VariantJobsMembers(product, variants, entries, j);
    }
    if key.product == product && key.variant.Some? && HasView(entries, key.view) && exists v ::
        v in variants && v.id == key.variant.value {
      var v :| v in variants && v.id == key.variant.value;
      var e :| e in entries && e.view == key.view;
      VariantJobsMembers(product, variants, entries, VariantJob(product, v.id, e));
    }
  }

  lemma {:induction false} EitherKey(a: seq<PlannedJob>, b: seq<PlannedJob>, key: Key)
    ensures HasKey(a + b, key) <==> HasKey(a, key) || HasKey(b, key)
  {
    assert forall j :: j in a + b <==> j in a || j in b;
  }

  lemma {:induction false} ProductKeys(p: Product, key: Key)
    requires ProductJobs(p).Ok?
    ensures HasKey(ProductJobs(p).value, key) <==> Planned(p, key)
  {
    var entries := ShotEntries(p).value;
    EitherKey(JobsFor(p.id, None, entries), VariantJobs(p.id, p.variants, entries), key);
    BaseKeys(p.id, entries, key);
    VariantsKeys(p.id, p.variants, entries, key);
    ListedEntries(p, key.view);
  }

  ghost predicate PlannedBy(products: seq<Product>, n: nat, key: Key)
    requires n <= |products|
  {
    exists i :: 0 <= i < n && Planned(products[i], key)
  }

  /** An accepted plan holds exactly every view of every product, plain and under each of its variants. */
  lemma {:induction false} PlanListsExactly(products: seq<Product>, key: Key)
    requires Plan(products).Ok?
    ensures HasKey(Plan(products).value, key) <==> PlannedBy(products, |products|, key)
  {
    var parts := JobParts(products);
    if HasKey(Plan(products).value, key) {
      var j :| j in Plan(products).value && j.key == key;
      var i := PartOf(products, j);
      ProductKeys(products[i], key);
    }
    if PlannedBy(products, |products|, key) {
      var i :| 0 <= i < |products| && Planned(products[i], key);
      EachAccepted(products, i);
      ProductKeys(products[i], key);
      var j :| j in ProductJobs(products[i]).value && j.key == key;
      GatherMembers(parts, |products|, j);
    }
  }

  /** The product a job of the plan is of. */
  lemma {:induction false} PartOf(products: seq<Product>, j: PlannedJob) returns (i: nat)
    requires Plan(products).Ok? && j in Plan(products).value
    ensures i < |products| && ProductJobs(products[i]).Ok? && j in ProductJobs(products[i]).value
  {
    GatherMembers(JobParts(products), |products|, j);
    i :| 0 <= i < |products| && JobParts(products)[i].Ok? && j in JobParts(products)[i].value;
    EachAccepted(products, i);
  }

  // ------------------------------------------------------- taking an id apart

  /** What stands in a view's name before its last part. */
  function Stem(view: View): string {
    match view
    case Plain(shot) => if OfModel(shot) && !shot.Editorial? then "model-" else ""
    case Profiled(model, shot) => "model-" + model + "-"
  }

  lemma {:induction false} ViewNameSplits(view: View)
    ensures ViewName(view) == Stem(view) + Aspect(view.shot)
    ensures Stem(view) == "" || (Stem(view)[0] == 'm' && Stem(view)[|Stem(view)| - 1] == '-')
  {
  }

  ghost predicate Proper(view: View) { view.Profiled? ==> OfModel(view.shot) && view.model != "" }

  lemma {:induction false} SameView(a: View, b: View)
    requires Proper(a) && Proper(b) && Stem(a) == Stem(b) && Aspect(a.shot) == Aspect(b.shot)
    ensures a == b
  {
    if a.Profiled? && b.Profiled? {
      assert a.model == Stem(a)[6..|Stem(a)| - 1] && b.model == Stem(b)[6..|Stem(b)| - 1];
    }
  }

  lemma {:induction false} LongerPart(a: string, x: string, b: string, y: string)
    requires a + x == b + y && |x| < |y| && (a == "" || a[|a| - 1] == '-')
    ensures '-' in y
  {
    assert |a| > |b|;
    assert (a + x)[|a| - 1] == a[|a| - 1] && (b + y)[|a| - 1] == y[|a| - 1 - |b|];
  }

  lemma {:induction false} LastPart(a: string, x: string, b: string, y: string)
    requires a + x == b + y && '-' !in x && '-' !in y
    requires (a == "" || a[|a| - 1] == '-') && (b == "" || b[|b| - 1] == '-')
    ensures a == b && x == y
  {
    if |x| < |y| { LongerPart(a, x, b, y); }
    if |y| < |x| { LongerPart(b, y, a, x); }
    assert a == (a + x)[..|a|] && b == (b + y)[..|b|];
    assert x == (a + x)[|a|..] && y == (b + y)[|b|..];
  }

  /** Two jobs share an id exactly when product, last part of the name and all between them are the same. */
  lemma {:induction false} SharedId(a: Key, b: Key)
    requires '/' !in a.product && '/' !in b.product
    ensures RenderedId(a) == RenderedId(b)
       <==> && a.product == b.product && Aspect(a.view.shot) == Aspect(b.view.shot)
            && Head(a.variant) + Stem(a.view) == Head(b.variant) + Stem(b.view)
  {
    IdSplits(a);
    IdSplits(b);
    var x, y := Head(a.variant) + Stem(a.view), Head(b.variant) + Stem(b.view);
    if RenderedId(a) == RenderedId(b) {
      SplitAtFirst(a.product, x + Aspect(a.view.shot), b.product, y + Aspect(b.view.shot), '/');
      LastPart(x, Aspect(a.view.shot), y, Aspect(b.view.shot));
    }
  }

  lemma {:induction false} IdSplits(key: Key)
    ensures RenderedId(key) == key.product + ['/'] + (Head(key.variant) + Stem(key.view) + Aspect(key.view.shot))
    ensures var x := Head(key.variant) + Stem(key.view); x == "" || x[|x| - 1] == '-'
  {
    ViewNameSplits(key.view);
    ConcatAssociative(Head(key.variant), Stem(key.view), Aspect(key.view.shot));
    assert "/" == ['/'];
  }

  /** The id `long` goes on from `short` by a hyphen and `tail`. */
  predicate GoesOn(short: string, tail: string, long: string) { long == short + "-" + tail }

  /**
   * Two different jobs of one id: both of variants, the id of one going on from the other's by what the other's view
   * name adds.
   */
  lemma {:induction false} SharedByVariants(a: Key, b: Key) returns (tail: string)
    requires '/' !in a.product && '/' !in b.product && Proper(a.view) && Proper(b.view)
    requires RenderedId(a) == RenderedId(b) && a != b
    ensures a.product == b.product && a.variant.Some? && b.variant.Some? && |a.variant.value| != |b.variant.value|
    ensures |a.variant.value| > |b.variant.value| ==>
              GoesOn(b.variant.value, tail, a.variant.value) && Stem(b.view) == tail + "-" + Stem(a.view)
    ensures |a.variant.value| < |b.variant.value| ==>
              GoesOn(a.variant.value, tail, b.variant.value) && Stem(a.view) == tail + "-" + Stem(b.view)
  {
    SharedId(a, b);
    ViewNameSplits(a.view);
    ViewNameSplits(b.view);
    tail := "";
    if a.variant.None? && b.variant.None? {
      assert Head(a.variant) + Stem(a.view) == Stem(a.view) && Head(b.variant) + Stem(b.view) == Stem(b.view);
      SameView(a.view, b.view);
    } else if a.variant.None? {
      FirstLetter(a.view, b.variant.value, Stem(b.view));
    } else if b.variant.None? {
      FirstLetter(b.view, a.variant.value, Stem(a.view));
    } else {
      DropVariant(a.variant.value, Stem(a.view), b.variant.value, Stem(b.view));
      if |a.variant.value| == |b.variant.value| {
        SameVariant(a.variant.value, Stem(a.view), b.variant.value, Stem(b.view));
        SameView(a.view, b.view);
      } else if |a.variant.value| > |b.variant.value| {
        tail := LongerVariant(a.variant.value, Stem(a.view), b.variant.value, Stem(b.view));
      } else {
        tail := LongerVariant(b.variant.value, Stem(b.view), a.variant.value, Stem(a.view));
      }
    }
  }

  lemma {:induction false} FirstLetter(view: View, variant: string, rest: string)
    ensures Head(None) + Stem(view) != Head(Some(variant)) + rest
  {
    ViewNameSplits(view);
    assert (Head(Some(variant)) + rest)[0] == 'v';
  }

  lemma {:induction false} DropVariant(v: string, x: string, w: string, y: string)
    requires Head(Some(v)) + x == Head(Some(w)) + y
    ensures v + "-" + x == w + "-" + y
  {
    ConcatAssociative("variant-", v + "-", x);
    ConcatAssociative("variant-", w + "-", y);
    ConcatAssociative("variant-", v, "-");
    ConcatAssociative("variant-", w, "-");
    SameRest("variant-", v + "-" + x, w + "-" + y);
  }

  lemma {:induction false} SameRest(head: string, x: string, y: string)
    requires head + x == head + y
    ensures x == y
  {
    assert x == (head + x)[|head|..] && y == (head + y)[|head|..];
  }

  lemma {:induction false} SameVariant(v: string, x: string, w: string, y: string)
    requires v + "-" + x == w + "-" + y && |v| == |w|
    ensures v == w && x == y
  {
    assert v == (v + "-" + x)[..|v|] && w == (w + "-" + y)[..|v|];
    assert x == (v + "-" + x)[|v| + 1..] && y == (w + "-" + y)[|v| + 1..];
  }

  lemma {:induction false} LongerVariant(v: string, x: string, w: string, y: string) returns (tail: string)
    requires v + "-" + x == w + "-" + y && |v| > |w|
    ensures GoesOn(w, tail, v) && y == tail + "-" + x
  {
    tail := v[|w| + 1..];
    var s := v + "-" + x;
    assert v == s[..|v|];
    assert s[..|w|] == w && s[|w|] == '-';
    assert v == v[..|w|] + [v[|w|]] + tail;
    assert y == s[|w| + 1..];
  }

  // -------------------------------------------- specifications that share ids

  /** What a profile's views are named after. */
  function ProfileStem(m: Model): string { "model-" + m.id }

  /** A tail that one view's name of the product has more than another's in front of the same last part. */
  predicate Confusing(models: Option<seq<Model>>, tail: string) {
    match models
    case None => tail == "model"
    case Some(ms) =>
      exists m :: m in ms && (ProfileStem(m) == tail || exists n :: n in ms
                                                                    && ProfileStem(m) == tail + "-" + ProfileStem(n))
  }

  /** One variant's id goes on from the other's by a confusing tail. */
  predicate Confused(p: Product, short: string, long: string) {
    && |long| > |short| && long[..|short|] == short && long[|short|] == '-'
    && Confusing(p.models, long[|short| + 1..])
  }

  /**
   * A product whose pictures share ids: it is shown on a model, and one of its variants' ids goes on from another's
   * by `-model` or, with profiles, by `-model-<profile>` or what one `model-<profile>` has in front of another.
   */
  predicate Ambiguous(p: Product) {
    ModelFront in p.shots && exists i, j :: 0 <= i < |p.variants| && 0 <= j < |p.variants|
                                            && Confused(p, p.variants[i].id, p.variants[j].id)
  }

  predicate Unambiguous(products: seq<Product>) { forall i :: 0 <= i < |products| ==> !Ambiguous(products[i]) }

  lemma {:induction false} ConfusedIff(p: Product, short: string, tail: string, long: string)
    requires GoesOn(short, tail, long)
    ensures Confused(p, short, long) <==> Confusing(p.models, tail)
  {
    assert long[|short| + 1..] == tail && long[..|short|] == short && long[|short|] == '-';
  }

  lemma {:induction false} OnModel(p: Product, shot: Shot)
    requires DepsOk(p) && shot in p.shots && OfModel(shot)
    ensures ModelFront in p.shots && Front in p.shots
  {
    if shot != ModelFront { assert ModelFront in Deps(shot); }
    assert Front in Deps(ModelFront);
  }

  lemma {:induction false} StemOfModel(p: Product, view: View)
    requires Listed(p, view) && Stem(view) != "" && (p.models.Some? ==> ModelsOk(p.models.value))
    ensures OfModel(view.shot)
    ensures p.models.None? ==> Stem(view) == "model-"
    ensures p.models.Some? ==> exists m :: m in p.models.value && Stem(view) == ProfileStem(m) + "-"
  {
    if p.models.Some? {
      assert view.Profiled?;
      var m :| m in p.models.value && m.id == view.model;
      assert Stem(view) == ProfileStem(m) + "-";
    }
  }

  lemma {:induction false} DropHyphen(a: string, b: string)
    requires a + "-" == b + "-"
    ensures a == b
  {
    assert a == (a + "-")[..|a|] && b == (b + "-")[..|b|];
  }

  /** The tail by which one view's name is longer than another's of the product is confusing. */
  lemma {:induction false} TailConfuses(p: Product, a: View, b: View, tail: string)
    requires Listed(p, a) && Listed(p, b) && (p.models.Some? ==> ModelsOk(p.models.value))
    requires Stem(b) == tail + "-" + Stem(a)
    ensures Confusing(p.models, tail) && OfModel(b.shot)
  {
    StemOfModel(p, b);
    if Stem(a) != "" { StemOfModel(p, a); }
    match p.models
    case None =>
      assert |Stem(b)| == |tail| + 1 + |Stem(a)|;
      assert Stem(a) == "" && tail + "-" + Stem(a) == tail + "-";
      assert "model" + "-" == "model-";
      DropHyphen(tail, "model");
    case Some(ms) =>
      var m :| m in ms && Stem(b) == ProfileStem(m) + "-";
      if Stem(a) == "" {
        assert tail + "-" + Stem(a) == tail + "-";
        DropHyphen(ProfileStem(m), tail);
      } else {
        var n :| n in ms && Stem(a) == ProfileStem(n) + "-";
        assert tail + "-" + (ProfileStem(n) + "-") == (tail + "-" + ProfileStem(n)) + "-";
        DropHyphen(ProfileStem(m), tail + "-" + ProfileStem(n));
      }
  }

  lemma {:induction false} NoSlash(s: string)
    requires Slug(s)
    ensures '/' !in s
  {
  }

  lemma {:induction false} ListedProper(p: Product, view: View)
    requires Listed(p, view) && (p.models.Some? ==> ModelsOk(p.models.value))
    ensures Proper(view)
  {
    if view.Profiled? {
      var m :| m in p.models.value && m.id == view.model;
      var i :| 0 <= i < |p.models.value| && p.models.value[i] == m;
      assert ModelOk(p.models.value, i);
    }
  }

  /** Two different pictures of one product share an id only when the product is ambiguous. */
  lemma {:induction false} SharedMeansAmbiguous(p: Product, a: Key, b: Key)
    requires ProductJobs(p).Ok? && Slug(p.id) && Planned(p, a) && Planned(p, b)
    requires RenderedId(a) == RenderedId(b) && a != b
    ensures Ambiguous(p)
  {
    NoSlash(p.id);
    ListedProper(p, a.view);
    ListedProper(p, b.view);
    var tail := SharedByVariants(a, b);
    if |a.variant.value| > |b.variant.value| {
      LongerIsConfused(p, a, b, tail);
    } else {
      LongerIsConfused(p, b, a, tail);
    }
  }

  lemma {:induction false} LongerIsConfused(p: Product, a: Key, b: Key, tail: string)
    requires ProductJobs(p).Ok? && Planned(p, a) && Planned(p, b) && a.variant.Some? && b.variant.Some?
    requires GoesOn(b.variant.value, tail, a.variant.value) && Stem(b.view) == tail + "-" + Stem(a.view)
    ensures Ambiguous(p)
  {
    TailConfuses(p, a.view, b.view, tail);
    OnModel(p, b.view.shot);
    ConfusedIff(p, b.variant.value, tail, a.variant.value);
    var v :| v in p.variants && v.id == a.variant.value;
    var w :| w in p.variants && w.id == b.variant.value;
    var i :| 0 <= i < |p.variants| && p.variants[i] == w;
    var j :| 0 <= j < |p.variants| && p.variants[j] == v;
    assert Confused(p, p.variants[i].id, p.variants[j].id);
  }

  /** An ambiguous product has two pictures of one id: the longer variant seen plainly, the shorter one on a model. */
  lemma {:induction false} AmbiguousShares(p: Product) returns (a: Key, b: Key)
    requires ProductJobs(p).Ok? && Ambiguous(p)
    ensures Planned(p, a) && Planned(p, b) && a != b && RenderedId(a) == RenderedId(b)
  {
    var i, j :| 0 <= i < |p.variants| && 0 <= j < |p.variants| && Confused(p, p.variants[i].id, p.variants[j].id);
    a, b := ConfusedShare(p, p.variants[i], p.variants[j]);
  }

  lemma {:induction false} ConfusedShare(p: Product, short: Variant, long: Variant) returns (a: Key, b: Key)
    requires DepsOk(p) && ModelFront in p.shots && short in p.variants && long in p.variants
    requires Confused(p, short.id, long.id)
    ensures Planned(p, a) && Planned(p, b) && a != b && RenderedId(a) == RenderedId(b)
  {
    var tail := long.id[|short.id| + 1..];
    assert GoesOn(short.id, tail, long.id);
    OnModel(p, ModelFront);
    var x, y := ViewsConfused(p, tail);
    a, b := Key(p.id, Some(long.id), x), Key(p.id, Some(short.id), y);
    SharedNames(short.id, tail, long.id, x, y);
  }

  lemma {:induction false} SharedHeads(start: string, short: string, tail: string, stem: string)
    ensures start + (short + "-" + tail) + "-" + stem == start + short + "-" + (tail + "-" + stem)
  {
  }

  lemma {:induction false} SharedNames(short: string, tail: string, long: string, x: View, y: View)
    requires GoesOn(short, tail, long) && Stem(y) == tail + "-" + Stem(x) && Aspect(x.shot) == Aspect(y.shot)
    ensures Head(Some(long)) + ViewName(x) == Head(Some(short)) + ViewName(y)
  {
    ViewNameSplits(x);
    ViewNameSplits(y);
    SharedHeads("variant-", short, tail, Stem(x));
    ConcatAssociative(Head(Some(long)), Stem(x), Aspect(x.shot));
    ConcatAssociative(Head(Some(short)), Stem(y), Aspect(x.shot));
  }

  lemma {:induction false} ViewsConfused(p: Product, tail: string) returns (x: View, y: View)
    requires Confusing(p.models, tail) && ModelFront in p.shots && Front in p.shots
    ensures Listed(p, x) && Listed(p, y) && Stem(y) == tail + "-" + Stem(x) && Aspect(x.shot) == Aspect(y.shot)
  {
    match p.models
    case None =>
      x, y := Plain(Front), Plain(ModelFront);
    case Some(ms) =>
      var m :| m in ms && (ProfileStem(m) == tail || exists n :: n in ms
                                                                 && ProfileStem(m) == tail + "-" + ProfileStem(n));
      y := Profiled(m.id, ModelFront);
      assert Stem(y) == ProfileStem(m) + "-";
      if ProfileStem(m) == tail {
        x := Plain(Front);
      } else {
        var n :| n in ms && ProfileStem(m) == tail + "-" + ProfileStem(n);
        x := Profiled(n.id, ModelFront);
        assert Stem(x) == ProfileStem(n) + "-";
        assert (tail + "-" + ProfileStem(n)) + "-" == tail + "-" + (ProfileStem(n) + "-");
      }
  }

  // -------------------------------------------------------- ids of a whole plan

  function PlanIds(plan: seq<PlannedJob>): (ids: seq<string>)
    ensures |ids| == |plan|
  {
    RenderedIds(JobKeys(plan))
  }

  lemma {:induction false} SameProduct(products: seq<Product>, i: nat, j: nat)
    requires Plan(products).Ok? && i < |products| && j < |products| && products[i].id == products[j].id
    ensures i == j
  {
    EachAccepted(products, Max(i, j));
    NextSound(products, Max(i, j));
  }

  /** Two different planned pictures of one id are of one product, and that product is ambiguous. */
  lemma {:induction false} SharedInPlan(products: seq<Product>, a: Key, b: Key) returns (i: nat)
    requires Plan(products).Ok? && HasKey(Plan(products).value, a) && HasKey(Plan(products).value, b)
    requires RenderedId(a) == RenderedId(b) && a != b
    ensures i < |products| && Planned(products[i], a) && Planned(products[i], b) && Ambiguous(products[i])
  {
    PlanListsExactly(products, a);
    PlanListsExactly(products, b);
    i :| 0 <= i < |products| && Planned(products[i], a);
    var j :| 0 <= j < |products| && Planned(products[j], b);
    EachAccepted(products, i);
    EachAccepted(products, j);
    NoSlash(products[i].id);
    NoSlash(products[j].id);
    SharedId(a, b);
    SameProduct(products, i, j);
    SharedMeansAmbiguous(products[i], a, b);
  }

  /** The ids of an accepted plan are pairwise different exactly when none of its products is ambiguous. */
  lemma {:induction false} DistinctIdsIff(products: seq<Product>)
    requires Plan(products).Ok?
    ensures Distinct(PlanIds(Plan(products).value)) <==> Unambiguous(products)
  {
    if Unambiguous(products) { UnambiguousDistinct(products); }
    if !Unambiguous(products) { AmbiguousRepeats(products); }
  }

  lemma {:induction false} UnambiguousDistinct(products: seq<Product>)
    requires Plan(products).Ok? && Unambiguous(products)
    ensures Distinct(PlanIds(Plan(products).value))
  {
    var plan := Plan(products).value;
    PlanSound(products);
    forall i, j | 0 <= i < j < |plan| ensures PlanIds(plan)[i] != PlanIds(plan)[j] {
      assert plan[i] in plan && plan[j] in plan;
      if RenderedId(plan[i].key) == RenderedId(plan[j].key) {
        var k := SharedInPlan(products, plan[i].key, plan[j].key);
      }
    }
  }

  lemma {:induction false} AmbiguousRepeats(products: seq<Product>)
    requires Plan(products).Ok? && !Unambiguous(products)
    ensures !Distinct(PlanIds(Plan(products).value))
  {
    var i :| 0 <= i < |products| && Ambiguous(products[i]);
    EachAccepted(products, i);
    var a, b := AmbiguousShares(products[i]);
    PlanListsExactly(products, a);
    PlanListsExactly(products, b);
    RepeatedId(Plan(products).value, a, b);
  }

  lemma {:induction false} PlaceOf(plan: seq<PlannedJob>, key: Key) returns (at: nat)
    requires HasKey(plan, key)
    ensures at < |plan| && plan[at].key == key && PlanIds(plan)[at] == RenderedId(key)
  {
    var j :| j in plan && j.key == key;
    at :| 0 <= at < |plan| && plan[at] == j;
  }

  lemma {:induction false} RepeatedId(plan: seq<PlannedJob>, a: Key, b: Key)
    requires HasKey(plan, a) && HasKey(plan, b) && a != b && RenderedId(a) == RenderedId(b)
    ensures !Distinct(PlanIds(plan))
  {
    var m := PlaceOf(plan, a);
    var n := PlaceOf(plan, b);
    assert PlanIds(plan)[Min(m, n)] == PlanIds(plan)[Max(m, n)];
  }

  // ----------------------------------------------------- looking dependencies up

  /** Every id a job waits for names a job of the plan, and the one found under it ranks lower. */
  ghost predicate Resolvable(plan: seq<PlannedJob>) {
    forall j, d :: j in plan && d in j.deps ==> Found(plan, d, j.key)
  }

  ghost predicate Found(plan: seq<PlannedJob>, d: Key, waiting: Key) {
    var at := LastIndex(PlanIds(plan), RenderedId(d));
    at.Some? && Rank(plan[at.value].key) < Rank(waiting)
  }

  ghost predicate Anchored(j: PlannedJob) { forall d :: d in j.deps && d.variant.Some? ==> d.view == Plain(Front) }

  lemma {:induction false} ProductAnchored(p: Product, j: PlannedJob)
    requires ProductJobs(p).Ok? && j in ProductJobs(p).value
    ensures Anchored(j)
  {
    var entries := ShotEntries(p).value;
    JobsForMembers(p.id, None, entries, j);
    VariantJobsMembers(p.id, p.variants, entries, j);
  }

  lemma {:induction false} PlanAnchored(products: seq<Product>, j: PlannedJob)
    requires Plan(products).Ok? && j in Plan(products).value
    ensures Anchored(j)
  {
    var i := PartOf(products, j);
    ProductAnchored(products[i], j);
  }

  /** A front picture's id is shared, if at all, with a picture of a variant of a shorter id. */
  lemma {:induction false} SharedWithShorter(d: Key, found: Key)
    requires '/' !in d.product && '/' !in found.product && Proper(found.view) && d.view == Plain(Front)
    requires RenderedId(found) == RenderedId(d) && found != d
    ensures d.variant.Some? && found.variant.Some? && |found.variant.value| < |d.variant.value|
  {
    var tail := SharedByVariants(d, found);
    assert |Stem(d.view)| == 0;
  }

  /** A job that is found under the id of a variant's front picture ranks no higher than that picture. */
  lemma {:induction false} FoundRanksLower(products: seq<Product>, d: Key, found: Key)
    requires Plan(products).Ok? && HasKey(Plan(products).value, d) && HasKey(Plan(products).value, found)
    requires RenderedId(found) == RenderedId(d) && (d.variant.Some? ==> d.view == Plain(Front))
    ensures Rank(found) <= Rank(d)
  {
    if found != d {
      var i := SharedInPlan(products, d, found);
      EachAccepted(products, i);
      NoSlash(products[i].id);
      ListedProper(products[i], d.view);
      ListedProper(products[i], found.view);
      if d.variant.Some? { SharedWithShorter(d, found); } else { var tail := SharedByVariants(d, found); }
    }
  }

  /** In every accepted plan, shared ids or not, what a job waits for is found among jobs that rank lower. */
  lemma {:induction false} LookupDescends(products: seq<Product>)
    requires Plan(products).Ok?
    ensures Resolvable(Plan(products).value)
  {
    var plan := Plan(products).value;
    PlanSound(products);
    forall j, d | j in plan && d in j.deps ensures Found(plan, d, j.key) {
      assert HasKey(plan, d);
      var m := PlaceOf(plan, d);
      var at := LastIndex(PlanIds(plan), RenderedId(d)).value;
      assert plan[at] in plan;
      PlanAnchored(products, j);
      FoundRanksLower(products, d, plan[at].key);
    }
  }

  // ---------------------------------------------------------------- an example

  const XModel := Variant("x-model", Color, "red", None)
  const X := Variant("x", Color, "blue", None)

  /** One product, seen from the front and on a model, in the variants `x-model` and `x`. */
  function Lookalikes(): Product { Product("p", true, [Front, ModelFront], false, None, [XModel, X]) }

  lemma {:induction false} LookalikesOk()
    ensures ShotsOk(Lookalikes()) && DepsOk(Lookalikes())
    ensures forall i :: 0 <= i < |Lookalikes().variants| ==> VariantOk(Lookalikes(), i)
  {
    var p := Lookalikes();
    NoRepeatIff(p.shots);
    assert Front in p.shots && Deps(Front) == [] && Deps(ModelFront) == [Front];
    assert Slug("x-model") && Slug("x") && "x-model" != "x";
    forall i | 0 <= i < |p.variants| ensures VariantOk(p, i) {
      assert p.variants[i] == if i == 0 then XModel else X;
    }
  }

  function TwoJobs(variant: Option<string>): seq<PlannedJob> {
    JobsFor("p", variant, [PlainEntry(Front), PlainEntry(ModelFront)])
  }

  lemma {:induction false} LookalikesPlan()
    ensures Plan([Lookalikes()]) == Ok(TwoJobs(None) + (TwoJobs(Some("x-model")) + TwoJobs(Some("x"))))
  {
    var p := Lookalikes();
    var front, onModel := PlainEntry(Front), PlainEntry(ModelFront);
    assert PlainEntries(p.shots) == [front, onModel] by {
      assert p.shots[1..] == [ModelFront] && p.shots[1..][1..] == [];
      assert PlainEntries(p.shots[1..]) == [onModel] + PlainEntries(p.shots[1..][1..]);
    }
    assert ShotEntries(p) == Ok([front, onModel]);
    assert VariantJobs(p.id, p.variants, [front, onModel]) == TwoJobs(Some("x-model")) + TwoJobs(Some("x")) by {
      assert p.variants[0] == XModel && p.variants[1..] == [X] && p.variants[1..][1..] == [];
      assert VariantJobs(p.id, p.variants[1..], [front, onModel])
          == TwoJobs(Some("x")) + VariantJobs(p.id, p.variants[1..][1..], [front, onModel]);
    }
    LookalikesOk();
    var jobs := TwoJobs(None) + (TwoJobs(Some("x-model")) + TwoJobs(Some("x")));
    assert ProductJobs(p) == Ok(jobs);
    OneProduct(p, jobs);
  }

  lemma {:induction false} OneProduct(p: Product, jobs: seq<PlannedJob>)
    requires Slug(p.id) && ProductJobs(p) == Ok(jobs)
    ensures Plan([p]) == Ok(jobs)
  {
    var parts := JobParts([p]);
    assert parts[0] == NextJobs([p], 0) == Ok(jobs);
    assert Gather(parts, 0) == Ok([]) && [] + jobs == jobs;
    assert Gather(parts, 1) == Ok(jobs);
  }

  lemma {:induction false} LookalikesAmbiguous()
    ensures Ambiguous(Lookalikes())
  {
    var p := Lookalikes();
    assert "x" + "-" + "model" == "x-model";
    ConfusedIff(p, "x", "model", "x-model");
    assert p.variants[1].id == "x" && p.variants[0].id == "x-model";
    assert ModelFront in p.shots;
  }

  lemma {:induction false} SameLiteral()
    ensures RenderedId(Key("p", Some("x-model"), Plain(Front))) == RenderedId(Key("p", Some("x"), Plain(ModelFront)))
  {
    assert GoesOn("x", "model", "x-model");
    assert Stem(Plain(Front)) == "" && Stem(Plain(ModelFront)) == "model" + "-" + "";
    SharedNames("x", "model", "x-model", Plain(Front), Plain(ModelFront));
  }

  /** An accepted plan with two jobs of one id: the variant `x-model` from the front, and the variant `x` on a model. */
  lemma {:induction false} RenderedIdsCollide()
    ensures Plan([Lookalikes()]).Ok? && Ambiguous(Lookalikes()) && |Plan([Lookalikes()]).value| == 6
    ensures Plan([Lookalikes()]).value[2].key == Key("p", Some("x-model"), Plain(Front))
    ensures Plan([Lookalikes()]).value[5].key == Key("p", Some("x"), Plain(ModelFront))
    ensures RenderedId(Key("p", Some("x-model"), Plain(Front))) == RenderedId(Key("p", Some("x"), Plain(ModelFront)))
  {
    LookalikesPlan();
    LookalikesAmbiguous();
    SameLiteral();
    TwoJobsAt(None);
    TwoJobsAt(Some("x-model"));
    TwoJobsAt(Some("x"));
  }

  lemma {:induction false} TwoJobsAt(variant: Option<string>)
    ensures |TwoJobs(variant)| == 2
    ensures TwoJobs(variant)[0].key == Key("p", variant, Plain(Front))
    ensures TwoJobs(variant)[1].key == Key("p", variant, Plain(ModelFront))
  {
  }
}
