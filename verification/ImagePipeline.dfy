/** The image pipeline: a manifest of jobs rewritten attempt by attempt, each step proved against its specification. */
module ImagePipeline {
  import opened Prelude
  import opened Texts
  import opened ImagePlan
  import opened ImageNames
  import Runs = ImageRuns

  type Job = Runs.Job

  /** The next command's answer. */
  datatype Offer = Offer(ready: seq<Job>, missing: seq<string>, exhausted: seq<string>, accepted: nat)

  function AcceptedCount(jobs: seq<Job>, n: nat): nat
    requires n <= |jobs|
  {
    if n == 0 then 0 else AcceptedCount(jobs, n - 1) + (if jobs[n - 1].status.Accepted? then 1 else 0)
  }

  function ExhaustedIds(jobs: seq<Job>, n: nat): seq<string>
    requires n <= |jobs|
  {
    if n == 0 then [] else ExhaustedIds(jobs, n - 1) + (if Runs.Exhausted(jobs[n - 1]) then [jobs[n - 1].id] else [])
  }

  /** The keys a complete set needs, product by product. */
  method ExpectedKeys(products: seq<Product>) returns (expected: seq<Key>)
    requires Expected(products, |products|).Ok?
    ensures Expected(products, |products|).value == expected
  {
    GatherOk(KeyParts(products), |products|);
    expected := GatherKeys(products, KeyParts(products));
  }

  method GatherKeys(products: seq<Product>, ghost parts: seq<Result<seq<Key>, PlanError>>) returns (expected: seq<Key>)
    requires |parts| == |products| && forall i :: 0 <= i < |parts| ==> parts[i].Ok? && parts[i] == KeyPart(products[i])
    ensures Gather(parts, |parts|).Ok? && Gather(parts, |parts|).value == expected
  {
    expected := [];
    for n := 0 to |products|
      invariant Gather(parts, n).Ok? && Gather(parts, n).value == expected
    {
      assert parts[n].Ok? && parts[n] == KeyPart(products[n]);
      var keys := PartKeys(products[n]);
      GatherNext(parts, n);
      expected := expected + keys;
    }
  }

  method PartKeys(p: Product) returns (keys: seq<Key>)
    requires KeyPart(p).Ok?
    ensures KeyPart(p).value == keys
  {
    var entries := ListEntries(p);
    keys := ProductKeys(p, entries.value);
  }

  method ListMissing(m: Runs.Manifest, expected: seq<Key>) returns (missing: seq<string>)
    ensures missing == Runs.Missing(m, RenderedIds(expected))
  {
    missing := [];
    ghost var ids := RenderedIds(expected);
    for i := 0 to |expected|
      invariant missing == Runs.Missing(m, ids[..i])
    {
      Runs.MissingNext(m, ids, i);
      var id := RenderedId(expected[i]);
      if !Runs.Covered(m, id) { missing := missing + [id]; }
    }
    assert ids[..|expected|] == ids;
  }

  method ProductKeys(p: Product, entries: seq<Entry>) returns (keys: seq<Key>)
    ensures keys == ExpectedOf(p, entries)
  {
    keys := KeysOf(p.id, None, entries);
    for i := 0 to |p.variants|
      invariant keys == KeysOf(p.id, None, entries) + VariantKeys(p.id, p.variants[..i], entries)
    {
      VariantKeysNext(p.id, p.variants, i, entries);
      keys := keys + KeysOf(p.id, Some(p.variants[i].id), entries);
    }
    assert p.variants[..|p.variants|] == p.variants;
  }

  class Pipeline {
    const products: seq<Product>
    var jobs: seq<Job>
    var files: map<Runs.File, Runs.Content>

    function Contents(): Runs.Manifest reads this { Runs.Manifest(jobs, files) }

    /** The jobs follow the plan. The output directory is open to anyone, so nothing is said of the files. */
    ghost predicate Valid() reads this { Plan(products).Ok? && Runs.Follows(Contents(), Plan(products).value) }

    /** The accepted pictures are in place, unchanged, with everything they were made from. */
    ghost predicate Intact() reads this { Runs.Intact(Contents()) }

    /** The manifest of an accepted plan; the output directory may already hold files. */
    constructor (products: seq<Product>, plan: seq<PlannedJob>, files: map<Runs.File, Runs.Content>)
      requires Plan(products) == Ok(plan)
      ensures Valid() && Intact() && this.products == products && Contents() == Runs.NewManifest(plan, files)
    {
      this.products, this.files := products, files;
      jobs := seq(|plan|, i requires 0 <= i < |plan| => Runs.NewJob(plan[i]));
      new;
      LookupDescends(products);
      Runs.NewInv(plan, files);
      assert jobs == Runs.NewManifest(plan, files).jobs;
    }

    /** Records one attempt of a job, or refuses and changes nothing. */
    method Record(id: string, note: string, image: Option<Runs.Image>) returns (error: Option<Runs.RecordError>)
      requires Valid()
      modifies this
      ensures Valid() && (old(Intact()) ==> Intact())
      ensures match Runs.Record(old(Contents()), id, note, image)
              case Err(e) => error == Some(e) && Contents() == old(Contents())
              case Ok(after) => error == None && Contents() == after
    {
      if Runs.Record(Contents(), id, note, image).Ok? {
        Runs.RecordFollows(Contents(), Plan(products).value, id, note, image);
        if Intact() { Runs.RecordIntact(Contents(), id, note, image); }
      }
      error := Attempt(id, note, image);
    }

    method Attempt(id: string, note: string, image: Option<Runs.Image>) returns (error: Option<Runs.RecordError>)
      modifies this
      ensures match Runs.Record(old(Contents()), id, note, image)
              case Err(e) => error == Some(e) && Contents() == old(Contents())
              case Ok(after) => error == None && Contents() == after
    {
      var at := Runs.Find(jobs, id);
      if at.None? { return Some(Runs.UnknownJob); }
      error := Refused(at.value, note, image);
      if error.None? { Write(at.value, image); }
    }

    /** Stores the picture, if there is one, and counts the attempt. */
    method Write(at: nat, image: Option<Runs.Image>)
      requires at < |jobs|
      modifies this
      ensures jobs == old(jobs)[at := Runs.Outcome(old(jobs)[at], image)]
      ensures files == Runs.FilesWith(old(files), old(jobs)[at].id, image)
    {
      var job := jobs[at];
      if image.Some? {
        var file := Runs.File(job.id, image.value.suffix);
        files := files[file := image.value.content];
        job := job.(status := Runs.Accepted, output := Some(file), digest := Some(image.value.content));
      } else {
        job := job.(status := Runs.Failed);
      }
      job := job.(attempts := job.attempts + 1);
      job := job.(history := job.history + [job.status]);
      jobs := jobs[at := job];
    }

    /** The checks before an attempt is written. */
    method Refused(at: nat, note: string, image: Option<Runs.Image>) returns (error: Option<Runs.RecordError>)
      requires at < |jobs|
      ensures error == Runs.Refusal(Contents(), at, note, image)
    {
      var job := jobs[at];
      if job.status.Accepted? { return Some(Runs.AlreadyAccepted); }
      if job.attempts >= Runs.ATTEMPTS { return Some(Runs.AttemptLimit); }
      if Trim(note) == "" { return Some(Runs.NoteRequired); }
      if !Runs.DepsReady(Contents(), job) { return Some(Runs.DependenciesFirst); }
      if image.None? { return None; }
      if !image.value.isFile || image.value.content == "" || image.value.suffix !in Runs.SUFFIXES {
        return Some(Runs.BadImage);
      }
      if Runs.File(job.id, image.value.suffix) in files { return Some(Runs.WouldOverwrite); }
      return None;
    }

    /** Which pictures are still missing; whether that tells the truth is a matter of the ids, and of the files. */
    method Coverage() returns (missing: seq<string>)
      requires Valid()
      ensures missing == Runs.Missing(Contents(), Runs.Required(products))
      ensures missing == [] <==> forall i :: 0 <= i < |jobs| && Runs.Holder(Contents(), i) ==>
                  Runs.ValidOutput(Contents(), jobs[i])
      ensures Runs.Undamaged(Contents()) && Unambiguous(products) ==>
                (missing == [] <==> forall i :: 0 <= i < |jobs| ==> jobs[i].status.Accepted?)
    {
      Runs.CompleteMeans(Contents(), products);
      if Runs.Undamaged(Contents()) && Unambiguous(products) { Runs.CompleteIff(Contents(), products); }
      CoverageIsPlan(products);
      var expected := ExpectedKeys(products);
      missing := ListMissing(Contents(), expected);
    }

    /**
     * What may be attempted next, at most `limit` of it, with what is missing and what is used up; or, when an
     * accepted picture is gone or changed, the first such job.
     */
    method Next(limit: nat) returns (answer: Result<Offer, string>)
      requires Valid() && limit >= 1
      ensures answer.Err? ==> exists i :: 0 <= i < |jobs| && FirstDamaged(Contents(), i) && answer.error == jobs[i].id
      ensures answer.Ok? <==> Runs.Undamaged(Contents())
      ensures answer.Ok? ==> OfferIs(Contents(), products, limit, answer.value)
      ensures answer.Ok? && answer.value.ready == [] ==> answer.value.missing == [] || answer.value.exhausted != []
    {
      var scan := Scan();
      if scan.Err? { return Err(scan.error); }
      var (ready, exhausted, accepted) := scan.value;
      var missing := Coverage();
      if ready == [] && missing != [] { NothingOffered(Contents(), products); }
      answer := Ok(Offer(ready[..Min(limit, |ready|)], missing, exhausted, accepted));
    }

    /** One pass over the jobs: the ready, the exhausted and the number accepted, or the first damaged. */
    method Scan() returns (scan: Result<(seq<Job>, seq<string>, nat), string>)
      ensures scan.Err? ==> exists i :: 0 <= i < |jobs| && FirstDamaged(Contents(), i) && scan.error == jobs[i].id
      ensures scan.Ok? <==> Runs.Undamaged(Contents())
      ensures scan.Ok? ==> scan.value.0 == Runs.ReadyJobs(Contents(), |jobs|)
      ensures scan.Ok? ==> scan.value.1 == ExhaustedIds(jobs, |jobs|) && scan.value.2 == AcceptedCount(jobs, |jobs|)
    {
      var ready: seq<Job> := [];
      var exhausted: seq<string> := [];
      var accepted := 0;
      for n := 0 to |jobs|
        invariant ready == Runs.ReadyJobs(Contents(), n)
        invariant exhausted == ExhaustedIds(jobs, n) && accepted == AcceptedCount(jobs, n)
        invariant forall i :: 0 <= i < n && jobs[i].status.Accepted? ==> Runs.ValidOutput(Contents(), jobs[i])
      {
        var job := jobs[n];
        if job.status.Accepted? && !Runs.ValidOutput(Contents(), job) {
          assert FirstDamaged(Contents(), n);
          return Err(job.id);
        }
        if job.status.Accepted? { accepted := accepted + 1; }
        if Runs.Exhausted(job) { exhausted := exhausted + [job.id]; }
        if job.status.Accepted? || job.attempts >= Runs.ATTEMPTS { continue; }
        if Runs.DepsReady(Contents(), job) { ready := ready + [job]; }
      }
      return Ok((ready, exhausted, accepted));
    }
  }

  lemma {:induction false} NothingOffered(m: Runs.Manifest, products: seq<Product>)
    requires Plan(products).Ok? && Runs.Follows(m, Plan(products).value) && Runs.Undamaged(m)
    requires Runs.ReadyJobs(m, |m.jobs|) == []
    requires Runs.Missing(m, Runs.Required(products)) != []
    ensures ExhaustedIds(m.jobs, |m.jobs|) != []
  {
    Runs.StuckMeansDoneOrExhausted(m, products);
    var i :| 0 <= i < |m.jobs| && Runs.Exhausted(m.jobs[i]);
    ExhaustedListed(m.jobs, |m.jobs|, i);
  }

  /** The first accepted job whose picture is gone or changed. */
  ghost predicate FirstDamaged(m: Runs.Manifest, i: nat)
    requires i < |m.jobs|
  {
    && m.jobs[i].status.Accepted? && !Runs.ValidOutput(m, m.jobs[i])
    && forall j :: 0 <= j < i && m.jobs[j].status.Accepted? ==> Runs.ValidOutput(m, m.jobs[j])
  }

  ghost predicate OfferIs(m: Runs.Manifest, products: seq<Product>, limit: nat, offer: Offer)
    requires Plan(products).Ok?
  {
    var ready := Runs.ReadyJobs(m, |m.jobs|);
    && offer.ready == ready[..Min(limit, |ready|)] && offer.missing == Runs.Missing(m, Runs.Required(products))
    && offer.exhausted == ExhaustedIds(m.jobs, |m.jobs|) && offer.accepted == AcceptedCount(m.jobs, |m.jobs|)
  }

  ghost predicate Spent(job: Job) { job.status != Runs.Accepted && job.attempts >= 2 }

  /** Reported as used up: exactly the unaccepted jobs with two attempts made, in plan order. */
  lemma {:induction false} ExhaustedExact(jobs: seq<Job>, n: nat) returns (at: seq<nat>)
    requires n <= |jobs|
    ensures Runs.Ascending(at, n) && |at| == |ExhaustedIds(jobs, n)|
    ensures forall k :: 0 <= k < |at| ==> ExhaustedIds(jobs, n)[k] == jobs[at[k]].id
    ensures forall i {:trigger i in at} :: 0 <= i < n ==> (i in at <==> Spent(jobs[i]))
  {
    if n == 0 {
      at := [];
    } else {
      at := ExhaustedExact(jobs, n - 1);
      Runs.AscendOn(at, n - 1);
      if Runs.Exhausted(jobs[n - 1]) { at := at + [n - 1]; }
    }
  }

  lemma {:induction false} AcceptedCounted(jobs: seq<Job>, n: nat)
    requires n <= |jobs|
    ensures AcceptedCount(jobs, n) == |set i | 0 <= i < n && jobs[i].status.Accepted?|
  {
    var counted := set i | 0 <= i < n && jobs[i].status.Accepted?;
    if n == 0 {
      assert counted == {};
    } else {
      AcceptedCounted(jobs, n - 1);
      var before := set i | 0 <= i < n - 1 && jobs[i].status.Accepted?;
      assert counted == before + (if jobs[n - 1].status.Accepted? then {n - 1} else {});
    }
  }

  lemma {:induction false} ExhaustedListed(jobs: seq<Job>, n: nat, i: nat)
    requires i < n <= |jobs| && Runs.Exhausted(jobs[i])
    ensures ExhaustedIds(jobs, n) != []
  {
    if i < n - 1 { ExhaustedListed(jobs, n - 1, i); }
  }

  lemma {:induction false} VariantKeysNext(product: string, variants: seq<Variant>, n: nat, entries: seq<Entry>)
    requires n < |variants|
    ensures VariantKeys(product, variants[..n + 1], entries)
         == VariantKeys(product, variants[..n], entries) + KeysOf(product, Some(variants[n].id), entries)
  {
    var shorter, longer := variants[..n], variants[..n + 1];
    if n == 0 {
      assert longer == [variants[0]] && longer[1..] == [];
    } else {
      VariantKeysNext(product, variants[1..], n - 1, entries);
      assert longer[1..] == variants[1..][..n] && shorter[1..] == variants[1..][..n - 1];
      ConcatAssociative(KeysOf(product, Some(variants[0].id), entries), VariantKeys(product, shorter[1..], entries),
                        KeysOf(product, Some(variants[n].id), entries));
    }
  }
}
