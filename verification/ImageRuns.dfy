/** Recording the pictures of a plan: retries, accepted pictures for good, and what is offered next. */
module ImageRuns {
  import opened Prelude
  import opened Texts
  import opened ImagePlan
  import opened ImageNames

  /** Where a picture is stored: under its job's id, with the file's own suffix. */
  datatype File = File(id: string, suffix: string)

  type Content = string

  datatype Status = Pending | Failed | Accepted

  /** The digest of a file stands for its content. */
  datatype Job =
    Job(id: string, deps: seq<string>, status: Status, attempts: nat, output: Option<File>, digest: Option<Content>,
        history: seq<Status>)

  datatype Manifest = Manifest(jobs: seq<Job>, files: map<File, Content>)

  /** A file a caller hands in. */
  datatype Image = Image(isFile: bool, suffix: string, content: Content)

  datatype RecordError =
    | UnknownJob | AlreadyAccepted | AttemptLimit | NoteRequired | DependenciesFirst | BadImage | WouldOverwrite

  const ATTEMPTS := 2
  const SUFFIXES := [".png", ".jpg", ".jpeg", ".webp"]

  // -------------------------------------------------------------- the writes

  function NewJob(p: PlannedJob): Job { Job(RenderedId(p.key), RenderedIds(p.deps), Pending, 0, None, None, []) }

  function NewManifest(plan: seq<PlannedJob>, files: map<File, Content>): Manifest {
    Manifest(seq(|plan|, i requires 0 <= i < |plan| => NewJob(plan[i])), files)
  }

  predicate ValidOutput(m: Manifest, job: Job) {
    job.status.Accepted? && job.output.Some? && job.output.value in m.files
    && job.digest == Some(m.files[job.output.value])
  }

  function Ids(jobs: seq<Job>): (ids: seq<string>)
    ensures |ids| == |jobs|
  {
    seq(|jobs|, i requires 0 <= i < |jobs| => jobs[i].id)
  }

  /** `{j.id: j}[id]`: of jobs of one id the last is found. */
  function Find(jobs: seq<Job>, id: string): (at: Option<nat>)
    ensures at.Some? ==> at.value < |jobs| && jobs[at.value].id == id
                         && forall i :: at.value < i < |jobs| ==> jobs[i].id != id
    ensures at.None? ==> forall i :: 0 <= i < |jobs| ==> jobs[i].id != id
  {
    var at := LastIndex(Ids(jobs), id);
    assert forall i :: 0 <= i < |jobs| ==> Ids(jobs)[i] == jobs[i].id;
    at
  }

  predicate DepReady(m: Manifest, d: string) { Find(m.jobs, d).Some? && ValidOutput(m, m.jobs[Find(m.jobs, d).value]) }

  predicate DepsReady(m: Manifest, job: Job) { forall i :: 0 <= i < |job.deps| ==> DepReady(m, job.deps[i]) }

  function Attempted(job: Job, status: Status): Job {
    job.(status := status, attempts := job.attempts + 1, history := job.history + [status])
  }

  /** Why an attempt of the job at `at` may not be recorded. */
  function Refusal(m: Manifest, at: nat, note: string, image: Option<Image>): Option<RecordError>
    requires at < |m.jobs|
  {
    var job := m.jobs[at];
    if job.status.Accepted? then Some(AlreadyAccepted)
    else if job.attempts >= ATTEMPTS then Some(AttemptLimit)
    else if Trim(note) == "" then Some(NoteRequired)
    else if !DepsReady(m, job) then Some(DependenciesFirst)
    else if image.Some? && (!image.value.isFile || image.value.content == "" || image.value.suffix !in SUFFIXES)
    then Some(BadImage)
    else if image.Some? && File(job.id, image.value.suffix) in m.files then Some(WouldOverwrite)
    else None
  }

  /** What the attempt makes of its job. */
  function Outcome(job: Job, image: Option<Image>): Job {
    match image
    case None => Attempted(job, Failed)
    case Some(i) => Attempted(job, Accepted).(output := Some(File(job.id, i.suffix)), digest := Some(i.content))
  }

  function FilesWith(files: map<File, Content>, id: string, image: Option<Image>): map<File, Content> {
    match image case None => files case Some(i) => files[File(id, i.suffix) := i.content]
  }

  /** One attempt of a job: a picture, or a failure when none came. */
  function Record(m: Manifest, id: string, note: string, image: Option<Image>): Result<Manifest, RecordError> {
    match Find(m.jobs, id)
    case None => Err(UnknownJob)
    case Some(at) =>
      match Refusal(m, at, note, image)
      case Some(error) => Err(error)
      case None => Ok(Manifest(m.jobs[at := Outcome(m.jobs[at], image)], FilesWith(m.files, id, image)))
  }

  predicate Ready(m: Manifest, job: Job) { !job.status.Accepted? && job.attempts < ATTEMPTS && DepsReady(m, job) }

  /** The jobs that may be attempted now, in manifest order. */
  function ReadyJobs(m: Manifest, n: nat): seq<Job>
    requires n <= |m.jobs|
  {
    if n == 0 then [] else ReadyJobs(m, n - 1) + (if Ready(m, m.jobs[n - 1]) then [m.jobs[n - 1]] else [])
  }

  predicate Exhausted(job: Job) { !job.status.Accepted? && job.attempts >= ATTEMPTS }

  predicate Covered(m: Manifest, id: string) { DepReady(m, id) }

  function Missing(m: Manifest, expected: seq<string>): seq<string> {
    if expected == [] then []
    else
      var last := |expected| - 1;
      Missing(m, expected[..last]) + (if Covered(m, expected[last]) then [] else [expected[last]])
  }

  // --------------------------------------------------------------- invariant

  ghost predicate JobOf(p: PlannedJob, job: Job) {
    && job.id == RenderedId(p.key) && job.deps == RenderedIds(p.deps)
    && job.attempts <= ATTEMPTS && |job.history| == job.attempts
    && (job.status.Pending? <==> job.attempts == 0)
    && (job.status.Accepted? ==> job.output.Some? && job.output.value.id == job.id && job.digest.Some?)
  }

  /** The manifest has its plan's jobs, in order, each within its attempts. */
  ghost predicate Follows(m: Manifest, plan: seq<PlannedJob>) {
    && Resolvable(plan)
    && |m.jobs| == |plan|
    && (forall i {:trigger JobOf(plan[i], m.jobs[i])} :: 0 <= i < |plan| ==> JobOf(plan[i], m.jobs[i]))
  }

  ghost predicate Stands(m: Manifest, job: Job) { job.status.Accepted? ==> ValidOutput(m, job) && DepsReady(m, job) }

  /** Accepted pictures are there and unchanged, and so is everything they were made from. */
  ghost predicate Intact(m: Manifest) {
    forall i {:trigger Stands(m, m.jobs[i])} :: 0 <= i < |m.jobs| ==> Stands(m, m.jobs[i])
  }

  /** The pictures of all accepted jobs are there and unchanged. */
  ghost predicate Undamaged(m: Manifest) {
    forall i :: 0 <= i < |m.jobs| && m.jobs[i].status.Accepted? ==> ValidOutput(m, m.jobs[i])
  }

  lemma {:induction false} IntactUndamaged(m: Manifest)
    requires Intact(m)
    ensures Undamaged(m)
  {
    forall i | 0 <= i < |m.jobs| && m.jobs[i].status.Accepted? ensures ValidOutput(m, m.jobs[i]) {
      assert Stands(m, m.jobs[i]);
    }
  }

  ghost predicate Inv(m: Manifest, plan: seq<PlannedJob>) { Follows(m, plan) && Intact(m) }

  lemma {:induction false} NewInv(plan: seq<PlannedJob>, files: map<File, Content>)
    requires Resolvable(plan)
    ensures Inv(NewManifest(plan, files), plan)
  {
  }

  lemma {:induction false} SameIds(m: Manifest, plan: seq<PlannedJob>)
    requires Follows(m, plan)
    ensures Ids(m.jobs) == PlanIds(plan)
  {
    forall i | 0 <= i < |plan| ensures Ids(m.jobs)[i] == PlanIds(plan)[i] { assert JobOf(plan[i], m.jobs[i]); }
  }

  /** The job that is found under its own id: no later one has it. */
  ghost predicate Holder(m: Manifest, i: nat)
    requires i < |m.jobs|
  {
    forall j :: i < j < |m.jobs| ==> m.jobs[j].id != m.jobs[i].id
  }

  lemma {:induction false} HolderFound(m: Manifest, i: nat)
    requires i < |m.jobs|
    ensures Holder(m, i) <==> Find(m.jobs, m.jobs[i].id) == Some(i)
  {
  }

  /** Every job is found under its own id exactly when no specification of the plan is ambiguous. */
  lemma {:induction false} AllHoldIff(m: Manifest, products: seq<Product>)
    requires Plan(products).Ok? && Follows(m, Plan(products).value)
    ensures (forall i :: 0 <= i < |m.jobs| ==> Holder(m, i)) <==> Unambiguous(products)
  {
    var ids := PlanIds(Plan(products).value);
    SameIds(m, Plan(products).value);
    DistinctIdsIff(products);
    assert forall i :: 0 <= i < |m.jobs| ==> ids[i] == m.jobs[i].id;
    if forall i :: 0 <= i < |m.jobs| ==> Holder(m, i) {
      forall i, j | 0 <= i < j < |ids| ensures ids[i] != ids[j] { assert Holder(m, i); }
    }
  }

  /** Without ambiguity, looking a job up by the id of its key finds the job planned under that key. */
  lemma {:induction false} LookupIsByKey(m: Manifest, products: seq<Product>, i: nat)
    requires Plan(products).Ok? && Follows(m, Plan(products).value) && Unambiguous(products) && i < |m.jobs|
    ensures Find(m.jobs, RenderedId(Plan(products).value[i].key)) == Some(i)
  {
    AllHoldIff(m, products);
    HolderFound(m, i);
    assert JobOf(Plan(products).value[i], m.jobs[i]);
  }

  /** What an attempt leaves alone: every accepted job, and every file. */
  ghost predicate Preserves(before: Manifest, after: Manifest) {
    && |after.jobs| == |before.jobs|
    && (forall i :: 0 <= i < |before.jobs| ==> after.jobs[i].id == before.jobs[i].id)
    && (forall i :: 0 <= i < |before.jobs| && before.jobs[i].status.Accepted? ==> after.jobs[i] == before.jobs[i])
    && (forall f :: f in before.files ==> f in after.files && after.files[f] == before.files[f])
  }

  lemma {:induction false} RecordPreserves(m: Manifest, id: string, note: string, image: Option<Image>)
    requires Record(m, id, note, image).Ok?
    ensures Preserves(m, Record(m, id, note, image).value)
  {
    var at := Find(m.jobs, id).value;
    PreservesOthers(m, at, Outcome(m.jobs[at], image), FilesWith(m.files, id, image));
  }

  lemma {:induction false} PreservesOthers(m: Manifest, at: nat, next: Job, files: map<File, Content>)
    requires at < |m.jobs| && !m.jobs[at].status.Accepted? && next.id == m.jobs[at].id
    requires forall f :: f in m.files ==> f in files && files[f] == m.files[f]
    ensures Preserves(m, Manifest(m.jobs[at := next], files))
  {
  }

  lemma {:induction false} PreservesChain(a: Manifest, b: Manifest, c: Manifest)
    requires Preserves(a, b) && Preserves(b, c)
    ensures Preserves(a, c)
  {
  }

  lemma {:induction false} SameIdsFound(a: seq<Job>, b: seq<Job>, id: string)
    requires |a| == |b| && forall i :: 0 <= i < |a| ==> a[i].id == b[i].id
    ensures Find(a, id) == Find(b, id)
  {
    assert Ids(a) == Ids(b);
  }

  lemma {:induction false} ReadyStays(before: Manifest, after: Manifest, d: string)
    requires Preserves(before, after) && DepReady(before, d)
    ensures DepReady(after, d)
  {
    SameIdsFound(before.jobs, after.jobs, d);
  }

  lemma {:induction false} DepsStayReady(before: Manifest, after: Manifest, job: Job)
    requires Preserves(before, after) && DepsReady(before, job)
    ensures DepsReady(after, job)
  {
    forall i | 0 <= i < |job.deps| ensures DepReady(after, job.deps[i]) { ReadyStays(before, after, job.deps[i]); }
  }

  /** An attempt keeps the jobs to their plan, whatever became of the files since. */
  lemma {:induction false} RecordFollows(m: Manifest, plan: seq<PlannedJob>, id: string, note: string,
                                         image: Option<Image>)
    requires Follows(m, plan) && Record(m, id, note, image).Ok?
    ensures Follows(Record(m, id, note, image).value, plan)
  {
    var after, at := Record(m, id, note, image).value, Find(m.jobs, id).value;
    forall i | 0 <= i < |plan| ensures JobOf(plan[i], after.jobs[i]) {
      assert JobOf(plan[i], m.jobs[i]);
    }
  }

  /** An attempt leaves every accepted picture in place, on accepted ones. */
  lemma {:induction false} RecordIntact(m: Manifest, id: string, note: string, image: Option<Image>)
    requires Intact(m) && Record(m, id, note, image).Ok?
    ensures Intact(Record(m, id, note, image).value)
  {
    var after, at := Record(m, id, note, image).value, Find(m.jobs, id).value;
    RecordPreserves(m, id, note, image);
    forall i | 0 <= i < |after.jobs| ensures Stands(after, after.jobs[i]) {
      assert Stands(m, m.jobs[i]);
      if i == at {
        DepsStayReady(m, after, m.jobs[at]);
      } else if m.jobs[i].status.Accepted? {
        DepsStayReady(m, after, m.jobs[i]);
      }
    }
  }

  /** An attempt keeps the invariant: two attempts at most, accepted only on accepted dependencies. */
  lemma {:induction false} RecordKeeps(m: Manifest, plan: seq<PlannedJob>, id: string, note: string,
                                       image: Option<Image>)
    requires Inv(m, plan) && Record(m, id, note, image).Ok?
    ensures Inv(Record(m, id, note, image).value, plan)
  {
    RecordFollows(m, plan, id, note, image);
    RecordIntact(m, id, note, image);
  }

  // -------------------------------------------------------------------- runs

  datatype Attempt = Attempt(id: string, note: string, image: Option<Image>)

  function Step(m: Manifest, a: Attempt): Manifest {
    match Record(m, a.id, a.note, a.image) case Ok(after) => after case Err(_) => m
  }

  function Run(m: Manifest, attempts: seq<Attempt>): Manifest
    decreases |attempts|
  {
    if attempts == [] then m else Run(Step(m, attempts[0]), attempts[1..])
  }

  /** How many of the attempts were recorded. */
  function Recorded(m: Manifest, attempts: seq<Attempt>): nat
    decreases |attempts|
  {
    if attempts == [] then 0
    else (if Record(m, attempts[0].id, attempts[0].note, attempts[0].image).Ok? then 1
        else 0) + Recorded(Step(m, attempts[0]), attempts[1..])
  }

  function Spent(jobs: seq<Job>): nat { if jobs == [] then 0 else jobs[0].attempts + Spent(jobs[1..]) }

  lemma {:induction false} SpentChange(jobs: seq<Job>, i: nat, job: Job)
    requires i < |jobs|
    ensures Spent(jobs[i := job]) == Spent(jobs) - jobs[i].attempts + job.attempts
  {
    if i == 0 {
      assert jobs[0 := job][1..] == jobs[1..];
    } else {
      SpentChange(jobs[1..], i - 1, job);
      assert jobs[i := job][1..] == jobs[1..][i - 1 := job];
    }
  }

  lemma {:induction false} SpentBound(jobs: seq<Job>)
    requires forall i :: 0 <= i < |jobs| ==> jobs[i].attempts <= ATTEMPTS
    ensures Spent(jobs) <= ATTEMPTS * |jobs|
  {
    if jobs != [] { SpentBound(jobs[1..]); }
  }

  lemma {:induction false} RunKeeps(m: Manifest, plan: seq<PlannedJob>, attempts: seq<Attempt>)
    requires Inv(m, plan)
    ensures Inv(Run(m, attempts), plan) && Preserves(m, Run(m, attempts))
    ensures Spent(Run(m, attempts).jobs) == Spent(m.jobs) + Recorded(m, attempts)
    decreases |attempts|
  {
    if attempts != [] {
      StepKeeps(m, plan, attempts[0]);
      RunKeeps(Step(m, attempts[0]), plan, attempts[1..]);
      PreservesChain(m, Step(m, attempts[0]), Run(Step(m, attempts[0]), attempts[1..]));
    }
  }

  lemma {:induction false} StepKeeps(m: Manifest, plan: seq<PlannedJob>, a: Attempt)
    requires Inv(m, plan)
    ensures Inv(Step(m, a), plan) && Preserves(m, Step(m, a))
    ensures Spent(Step(m, a).jobs) == Spent(m.jobs) + (if Record(m, a.id, a.note, a.image).Ok? then 1 else 0)
  {
    if Record(m, a.id, a.note, a.image).Ok? {
      RecordKeeps(m, plan, a.id, a.note, a.image);
      RecordPreserves(m, a.id, a.note, a.image);
      RecordSpends(m, a.id, a.note, a.image);
    }
  }

  lemma {:induction false} RecordSpends(m: Manifest, id: string, note: string, image: Option<Image>)
    requires Record(m, id, note, image).Ok?
    ensures Spent(Record(m, id, note, image).value.jobs) == Spent(m.jobs) + 1
  {
    var at := Find(m.jobs, id).value;
    SpentChange(m.jobs, at, Outcome(m.jobs[at], image));
  }

  lemma {:induction false} NothingSpent(jobs: seq<Job>)
    requires forall i :: 0 <= i < |jobs| ==> jobs[i].attempts == 0
    ensures Spent(jobs) == 0
  {
    if jobs != [] { NothingSpent(jobs[1..]); }
  }

  lemma {:induction false} RunSplits(m: Manifest, a: seq<Attempt>, b: seq<Attempt>)
    ensures Run(m, a + b) == Run(Run(m, a), b)
    decreases |a|
  {
    if a == [] {
      assert a + b == b;
    } else {
      assert (a + b)[1..] == a[1..] + b;
      RunSplits(Step(m, a[0]), a[1..], b);
    }
  }

  /**
   * From any accepted plan, in every run of attempts: no job is tried more than twice, an accepted picture stands on
   * accepted ones, and at most two records per job succeed.
   */
  lemma {:induction false} EveryRun(products: seq<Product>, files: map<File, Content>, attempts: seq<Attempt>)
    requires Plan(products).Ok?
    ensures var plan := Plan(products).value;
            var start := NewManifest(plan, files);
            && Inv(Run(start, attempts), plan)
            && Recorded(start, attempts) <= ATTEMPTS * |plan|
  {
    var plan := Plan(products).value;
    var start := NewManifest(plan, files);
    StartInv(products, files);
    RunKeeps(start, plan, attempts);
    NothingSpent(start.jobs);
    var end := Run(start, attempts);
    forall i | 0 <= i < |end.jobs| ensures end.jobs[i].attempts <= ATTEMPTS { assert JobOf(plan[i], end.jobs[i]); }
    SpentBound(end.jobs);
  }

  lemma {:induction false} LaterPreserves(m: Manifest, plan: seq<PlannedJob>, a: seq<Attempt>, b: seq<Attempt>)
    requires Inv(m, plan)
    ensures Preserves(Run(m, a), Run(m, a + b))
  {
    RunSplits(m, a, b);
    RunKeeps(m, plan, a);
    RunKeeps(Run(m, a), plan, b);
  }

  lemma {:induction false} StartInv(products: seq<Product>, files: map<File, Content>)
    requires Plan(products).Ok?
    ensures Inv(NewManifest(Plan(products).value, files), Plan(products).value)
  {
    LookupDescends(products);
    NewInv(Plan(products).value, files);
  }

  /** Between any two moments of a run: a picture once accepted, and a file once written, is never touched again. */
  lemma {:induction false} AcceptedForGood(products: seq<Product>, files: map<File, Content>, early: seq<Attempt>,
                                           late: seq<Attempt>)
    requires Plan(products).Ok? && early <= late
    ensures var start := NewManifest(Plan(products).value, files); Preserves(Run(start, early), Run(start, late))
  {
    StartInv(products, files);
    assert late == early + late[|early|..];
    LaterPreserves(NewManifest(Plan(products).value, files), Plan(products).value, early, late[|early|..]);
  }

  /** The job is accepted, and the picture it was accepted with is still there, unchanged. */
  ghost predicate Shows(m: Manifest, job: Job) {
    && job.status == Accepted
    && exists f :: f in m.files && job.output == Some(f) && job.digest == Some(m.files[f])
  }

  lemma {:induction false} ShowsIff(m: Manifest, job: Job)
    ensures Shows(m, job) <==> ValidOutput(m, job)
  {
    if ValidOutput(m, job) { assert job.output == Some(job.output.value); }
  }

  /** The picture asked for under `id` is accepted and in place. */
  ghost predicate InPlace(m: Manifest, id: string) {
    exists k :: 0 <= k < |m.jobs| && m.jobs[k].id == id && Holder(m, k) && Shows(m, m.jobs[k])
  }

  lemma {:induction false} ReadyIffInPlace(m: Manifest, id: string)
    ensures DepReady(m, id) <==> InPlace(m, id)
  {
    if DepReady(m, id) {
      ShowsIff(m, m.jobs[Find(m.jobs, id).value]);
      assert Holder(m, Find(m.jobs, id).value);
    }
    if InPlace(m, id) {
      var k :| 0 <= k < |m.jobs| && m.jobs[k].id == id && Holder(m, k) && Shows(m, m.jobs[k]);
      ShowsIff(m, m.jobs[k]);
      HolderFound(m, k);
    }
  }

  lemma {:induction false} DepsReadyIff(m: Manifest, job: Job)
    ensures DepsReady(m, job) <==> forall d :: d in job.deps ==> InPlace(m, d)
  {
    forall i | 0 <= i < |job.deps| ensures DepReady(m, job.deps[i]) <==> InPlace(m, job.deps[i]) {
      ReadyIffInPlace(m, job.deps[i]);
    }
  }

  /**
   * An attempt is recorded exactly for an unaccepted job with attempts left, a note, dependencies in place and,
   * if a picture is given, a usable one whose place is free; the job is the last one of its id.
   */
  lemma {:induction false} RecordedIff(m: Manifest, i: nat, note: string, image: Option<Image>)
    requires i < |m.jobs| && Holder(m, i)
    ensures var job := m.jobs[i];
            Record(m, job.id, note, image).Ok? <==>
            && !job.status.Accepted? && job.attempts < 2 && Trim(note) != ""
            && (forall d :: d in job.deps ==> InPlace(m, d))
            && (image.Some? ==> Picture(image.value) && File(job.id, image.value.suffix) !in m.files)
  {
    HolderFound(m, i);
    LetThrough(m, i, note, image);
  }

  lemma {:induction false} LetThrough(m: Manifest, i: nat, note: string, image: Option<Image>)
    requires i < |m.jobs|
    ensures var job := m.jobs[i];
            Refusal(m, i, note, image).None? <==>
            && !job.status.Accepted? && job.attempts < 2 && Trim(note) != ""
            && (forall d :: d in job.deps ==> InPlace(m, d))
            && (image.Some? ==> Picture(image.value) && File(job.id, image.value.suffix) !in m.files)
  {
    DepsReadyIff(m, m.jobs[i]);
  }

  /** A nonempty raster image file. */
  ghost predicate Picture(i: Image) {
    && i.isFile && i.content != ""
    && (i.suffix == ".png" || i.suffix == ".jpg" || i.suffix == ".jpeg" || i.suffix == ".webp")
  }

  /** Which refusal comes, in the order of the checks. */
  lemma {:induction false} RecordRefused(m: Manifest, id: string, note: string, image: Option<Image>)
    requires Record(m, id, note, image).Err?
    ensures var e := Record(m, id, note, image).error;
            if forall i :: 0 <= i < |m.jobs| ==> m.jobs[i].id != id then e == UnknownJob
            else exists i :: 0 <= i < |m.jobs| && m.jobs[i].id == id && Holder(m, i) && RefusedFor(m, i, note, image, e)
  {
    var at := Find(m.jobs, id);
    if at.Some? {
      Refused(m, at.value, note, image);
      assert Holder(m, at.value) && RefusedFor(m, at.value, note, image, Record(m, id, note, image).error);
    }
  }

  lemma {:induction false} Refused(m: Manifest, i: nat, note: string, image: Option<Image>)
    requires i < |m.jobs| && Refusal(m, i, note, image).Some?
    ensures RefusedFor(m, i, note, image, Refusal(m, i, note, image).value)
  {
    DepsReadyIff(m, m.jobs[i]);
  }

  ghost predicate RefusedFor(m: Manifest, i: nat, note: string, image: Option<Image>, e: RecordError)
    requires i < |m.jobs|
  {
    var job := m.jobs[i];
    var waits := exists d :: d in job.deps && !InPlace(m, d);
    if job.status.Accepted? then e == AlreadyAccepted
    else if job.attempts >= 2 then e == AttemptLimit
    else if Trim(note) == "" then e == NoteRequired
    else if waits then e == DependenciesFirst
    else image.Some? && e == if Picture(image.value) then WouldOverwrite else BadImage
  }

  /** Listed in a list, in its order: the places the listed ones have. */
  ghost predicate Ascending(at: seq<nat>, n: nat) {
    (forall k :: 0 <= k < |at| ==> at[k] < n) && forall j, k :: 0 <= j < k < |at| ==> at[j] < at[k]
  }

  lemma {:induction false} AscendOn(at: seq<nat>, n: nat)
    requires Ascending(at, n)
    ensures Ascending(at, n + 1) && Ascending(at + [n], n + 1) && n !in at
    ensures forall i :: i in at + [n] <==> i in at || i == n
  {
  }

  /** What is offered: exactly the unaccepted jobs with attempts left and everything they wait for, in plan order. */
  lemma {:induction false} ReadyExact(m: Manifest, n: nat) returns (at: seq<nat>)
    requires n <= |m.jobs|
    ensures Ascending(at, n) && |at| == |ReadyJobs(m, n)|
    ensures forall k :: 0 <= k < |at| ==> ReadyJobs(m, n)[k] == m.jobs[at[k]]
    ensures forall i :: 0 <= i < n ==>
              (i in at <==> !m.jobs[i].status.Accepted? && m.jobs[i].attempts < 2
                            && forall d :: d in m.jobs[i].deps ==> InPlace(m, d))
  {
    if n == 0 {
      at := [];
    } else {
      at := ReadyExact(m, n - 1);
      AscendOn(at, n - 1);
      DepsReadyIff(m, m.jobs[n - 1]);
      if Ready(m, m.jobs[n - 1]) { at := at + [n - 1]; }
    }
  }

  /** A recorded attempt counts once on its own job: accepted with the picture stored, or failed without one. */
  lemma {:induction false} RecordedMeans(m: Manifest, i: nat, note: string, image: Option<Image>)
    requires i < |m.jobs| && Holder(m, i) && Record(m, m.jobs[i].id, note, image).Ok?
    ensures var after := Record(m, m.jobs[i].id, note, image).value;
            && |after.jobs| == |m.jobs| && (forall k :: 0 <= k < |m.jobs| && k != i ==> after.jobs[k] == m.jobs[k])
            && after.jobs[i].attempts == m.jobs[i].attempts + 1
            && after.jobs[i].id == m.jobs[i].id && after.jobs[i].deps == m.jobs[i].deps
            && after.jobs[i].history == m.jobs[i].history + [after.jobs[i].status]
            && (if image.None? then after.jobs[i].status == Failed && after.files == m.files
                else && Shows(after, after.jobs[i])
                     && after.jobs[i].output == Some(File(m.jobs[i].id, image.value.suffix))
                     && after.files == m.files[File(m.jobs[i].id, image.value.suffix) := image.value.content])
  {
    HolderFound(m, i);
    var after := Record(m, m.jobs[i].id, note, image).value;
    ShowsIff(after, after.jobs[i]);
  }

  /** A job whose id a later one has is never written, in no run. */
  lemma {:induction false} ShadowedUntouched(m: Manifest, attempts: seq<Attempt>, i: nat)
    requires i < |m.jobs| && !Holder(m, i)
    ensures |Run(m, attempts).jobs| == |m.jobs| && Run(m, attempts).jobs[i] == m.jobs[i]
    decreases |attempts|
  {
    if attempts != [] {
      var a := attempts[0];
      if Record(m, a.id, a.note, a.image).Ok? {
        RecordPreserves(m, a.id, a.note, a.image);
        assert Find(m.jobs, a.id) != Some(i);
      }
      ShadowedStays(m, Step(m, a), i);
      ShadowedUntouched(Step(m, a), attempts[1..], i);
    }
  }

  lemma {:induction false} ShadowedStays(before: Manifest, after: Manifest, i: nat)
    requires |after.jobs| == |before.jobs|
    requires forall k :: 0 <= k < |before.jobs| ==> after.jobs[k].id == before.jobs[k].id
    requires i < |before.jobs|
    ensures Holder(after, i) <==> Holder(before, i)
  {
  }

  // ---------------------------------------------------------------- progress

  /** A place with what is asked for, of least rank among the first `n`. */
  lemma {:induction false} Least(plan: seq<PlannedJob>, wanted: set<nat>, n: nat) returns (at: nat)
    requires n <= |plan| && exists i :: 0 <= i < n && i in wanted
    ensures at < n && at in wanted
    ensures forall i :: 0 <= i < n && i in wanted ==> Rank(plan[at].key) <= Rank(plan[i].key)
  {
    if exists i :: 0 <= i < n - 1 && i in wanted {
      at := Least(plan, wanted, n - 1);
      if n - 1 in wanted && Rank(plan[n - 1].key) < Rank(plan[at].key) { at := n - 1; }
    } else {
      at := n - 1;
    }
  }

  lemma {:induction false} ReadyListed(m: Manifest, n: nat, i: nat)
    requires i < n <= |m.jobs| && Ready(m, m.jobs[i])
    ensures m.jobs[i] in ReadyJobs(m, n)
  {
    if i < n - 1 { ReadyListed(m, n - 1, i); }
  }

  /** What a job waits for is found, as the last job of its id, and ranks lower. */
  lemma {:induction false} DepFound(m: Manifest, plan: seq<PlannedJob>, i: nat, k: nat) returns (at: nat)
    requires Follows(m, plan) && i < |m.jobs| && k < |m.jobs[i].deps|
    ensures at < |m.jobs| && Find(m.jobs, m.jobs[i].deps[k]) == Some(at) && Holder(m, at)
    ensures Rank(plan[at].key) < Rank(plan[i].key)
  {
    assert JobOf(plan[i], m.jobs[i]);
    var d := plan[i].deps[k];
    assert plan[i] in plan && d in plan[i].deps;
    assert Found(plan, d, plan[i].key);
    SameIds(m, plan);
    at := Find(m.jobs, m.jobs[i].deps[k]).value;
  }

  ghost function Unaccepted(m: Manifest): set<nat> { set i | 0 <= i < |m.jobs| && !m.jobs[i].status.Accepted? }

  lemma {:induction false} LowestIsReady(m: Manifest, plan: seq<PlannedJob>, at: nat)
    requires Follows(m, plan) && Undamaged(m) && at < |m.jobs|
    requires forall i :: 0 <= i < |m.jobs| && Holder(m, i) && Rank(plan[i].key) < Rank(plan[at].key) ==>
                 m.jobs[i].status.Accepted?
    ensures DepsReady(m, m.jobs[at])
  {
    forall k | 0 <= k < |m.jobs[at].deps| ensures DepReady(m, m.jobs[at].deps[k]) {
      var i := DepFound(m, plan, at, k);
    }
  }

  /** While a picture is missing and no job has used up its attempts, some job is offered. */
  lemma {:induction false} SomethingReady(m: Manifest, plan: seq<PlannedJob>)
    requires Follows(m, plan) && Undamaged(m) && (exists i :: 0 <= i < |m.jobs| && !m.jobs[i].status.Accepted?)
    requires forall i :: 0 <= i < |m.jobs| ==> !Exhausted(m.jobs[i])
    ensures ReadyJobs(m, |m.jobs|) != []
  {
    var some :| 0 <= some < |m.jobs| && !m.jobs[some].status.Accepted?;
    assert some in Unaccepted(m);
    var at := Least(plan, Unaccepted(m), |plan|);
    forall i | 0 <= i < |m.jobs| && Rank(plan[i].key) < Rank(plan[at].key) ensures m.jobs[i].status.Accepted? {
      assert i !in Unaccepted(m);
    }
    LowestIsReady(m, plan, at);
    assert !Exhausted(m.jobs[at]);
    ReadyListed(m, |m.jobs|, at);
  }

  // ---------------------------------------------------------------- coverage

  lemma {:induction false} MissingMembers(m: Manifest, expected: seq<string>, id: string)
    ensures id in Missing(m, expected) <==> id in expected && !Covered(m, id)
  {
    if expected != [] {
      MissingMembers(m, expected[..|expected| - 1], id);
      assert expected == expected[..|expected| - 1] + [expected[|expected| - 1]];
    }
  }

  lemma {:induction false} MissingNext(m: Manifest, expected: seq<string>, n: nat)
    requires n < |expected|
    ensures Missing(m, expected[..n + 1]) == Missing(m, expected[..n]) + (if Covered(m, expected[n]) then []
                else [expected[n]])
  {
    assert expected[..n + 1][..n] == expected[..n];
  }

  /** The ids coverage expects of an accepted plan's products. */
  function Required(products: seq<Product>): (ids: seq<string>)
    requires Plan(products).Ok?
  {
    CoverageIsPlan(products);
    RenderedIds(Expected(products, |products|).value)
  }

  lemma {:induction false} RequiredAre(products: seq<Product>)
    requires Plan(products).Ok?
    ensures Required(products) == PlanIds(Plan(products).value)
  {
    CoverageIsPlan(products);
  }

  ghost predicate AllAccepted(m: Manifest) { forall i :: 0 <= i < |m.jobs| ==> m.jobs[i].status.Accepted? }

  ghost predicate HoldersAccepted(m: Manifest) {
    forall i :: 0 <= i < |m.jobs| && Holder(m, i) ==> m.jobs[i].status.Accepted?
  }

  /** Coverage is complete exactly when, of the jobs of each id, the last is accepted and its picture in place. */
  lemma {:induction false} CompleteMeans(m: Manifest, products: seq<Product>)
    requires Plan(products).Ok? && Follows(m, Plan(products).value)
    ensures Missing(m, Required(products)) == [] <==> forall i :: 0 <= i < |m.jobs| && Holder(m, i) ==>
                ValidOutput(m, m.jobs[i])
  {
    var ids := Required(products);
    RequiredAre(products);
    SameIds(m, Plan(products).value);
    forall i | 0 <= i < |m.jobs| && Holder(m, i) ensures ids[i] in Missing(m, ids) <==> !ValidOutput(m, m.jobs[i]) {
      HolderFound(m, i);
      assert Ids(m.jobs)[i] == m.jobs[i].id;
      MissingMembers(m, ids, ids[i]);
    }
    if Missing(m, ids) != [] { MissingHolder(m, ids, Missing(m, ids)[0]); }
  }

  /** Missing are exactly the expected pictures whose last job does not show one, in plan order. */
  lemma {:induction false} MissingExact(m: Manifest, products: seq<Product>) returns (at: seq<nat>)
    requires Plan(products).Ok? && Follows(m, Plan(products).value)
    ensures Ascending(at, |m.jobs|) && |at| == |Missing(m, Required(products))|
    ensures forall k :: 0 <= k < |at| ==> Missing(m, Required(products))[k] == m.jobs[at[k]].id
    ensures forall i :: 0 <= i < |m.jobs| ==> (i in at <==> !InPlace(m, m.jobs[i].id))
  {
    RequiredAre(products);
    SameIds(m, Plan(products).value);
    at := MissingPlaces(m, Required(products), |m.jobs|);
    assert Required(products)[..|m.jobs|] == Required(products);
    forall i | 0 <= i < |m.jobs| ensures Covered(m, m.jobs[i].id) <==> InPlace(m, m.jobs[i].id) {
      ReadyIffInPlace(m, m.jobs[i].id);
    }
  }

  lemma {:induction false} MissingPlaces(m: Manifest, ids: seq<string>, n: nat) returns (at: seq<nat>)
    requires ids == Ids(m.jobs) && n <= |ids|
    ensures Ascending(at, n) && |at| == |Missing(m, ids[..n])|
    ensures forall k :: 0 <= k < |at| ==> Missing(m, ids[..n])[k] == m.jobs[at[k]].id
    ensures forall i :: 0 <= i < n ==> (i in at <==> !Covered(m, m.jobs[i].id))
  {
    if n == 0 {
      at := [];
    } else {
      at := MissingPlaces(m, ids, n - 1);
      AscendOn(at, n - 1);
      MissingNext(m, ids, n - 1);
      if !Covered(m, ids[n - 1]) { at := at + [n - 1]; }
    }
  }

  lemma {:induction false} MissingHolder(m: Manifest, ids: seq<string>, id: string)
    requires id in Missing(m, ids) && ids == Ids(m.jobs)
    ensures exists i :: 0 <= i < |m.jobs| && Holder(m, i) && !ValidOutput(m, m.jobs[i])
  {
    MissingMembers(m, ids, id);
    var i :| 0 <= i < |ids| && ids[i] == id;
    assert m.jobs[i].id == id;
    var at := Find(m.jobs, id).value;
    assert Holder(m, at);
  }

  /** For unambiguous products, coverage is complete exactly when every job of the plan is accepted. */
  lemma {:induction false} CompleteIff(m: Manifest, products: seq<Product>)
    requires Plan(products).Ok? && Follows(m, Plan(products).value) && Undamaged(m) && Unambiguous(products)
    ensures Missing(m, Required(products)) == [] <==> AllAccepted(m)
  {
    CompleteMeans(m, products);
    AllHoldIff(m, products);
  }

  /** The end of the road: when nothing is offered, the set is complete or some job has used up its attempts. */
  lemma {:induction false} StuckMeansDoneOrExhausted(m: Manifest, products: seq<Product>)
    requires Plan(products).Ok? && Follows(m, Plan(products).value) && Undamaged(m) && ReadyJobs(m, |m.jobs|) == []
    ensures Missing(m, Required(products)) == [] || exists i :: 0 <= i < |m.jobs| && Exhausted(m.jobs[i])
  {
    CompleteMeans(m, products);
    if (forall i :: 0 <= i < |m.jobs| ==> !Exhausted(m.jobs[i])) && exists i ::
        0 <= i < |m.jobs| && !m.jobs[i].status.Accepted? {
      SomethingReady(m, Plan(products).value);
    }
  }

  // ------------------------------------------------------- sets that can be made

  /** Jobs that are found and not yet accepted. */
  ghost function Open(m: Manifest): set<nat> {
    set i | 0 <= i < |m.jobs| && Holder(m, i) && !m.jobs[i].status.Accepted?
  }

  /** Every open job has attempts left and a free place. */
  ghost predicate Makeable(m: Manifest) {
    forall i :: i in Open(m) ==> m.jobs[i].attempts < ATTEMPTS && File(m.jobs[i].id, ".png") !in m.files
  }

  const NOTE := "seen"

  const PICTURE := Some(Image(true, ".png", "picture"))

  lemma {:induction false} LowestOpen(m: Manifest, plan: seq<PlannedJob>) returns (at: nat)
    requires Inv(m, plan) && Open(m) != {}
    ensures at in Open(m) && DepsReady(m, m.jobs[at])
  {
    IntactUndamaged(m);
    var some :| some in Open(m);
    at := Least(plan, Open(m), |plan|);
    forall i | 0 <= i < |m.jobs| && Holder(m, i) && Rank(plan[i].key) < Rank(plan[at].key)
      ensures m.jobs[i].status.Accepted? {
      assert i !in Open(m);
    }
    LowestIsReady(m, plan, at);
  }

  lemma {:induction false} MakeOne(m: Manifest, plan: seq<PlannedJob>) returns (a: Attempt)
    requires Inv(m, plan) && Makeable(m) && Open(m) != {}
    ensures Inv(Step(m, a), plan) && Makeable(Step(m, a)) && Open(Step(m, a)) < Open(m)
  {
    var at := LowestOpen(m, plan);
    a := Attempt(m.jobs[at].id, NOTE, PICTURE);
    Taken(m, at);
    StepKeeps(m, plan, a);
    OneLessOpen(m, at, Step(m, a));
  }

  /** An open job whose dependencies are ready takes a picture. */
  lemma {:induction false} Taken(m: Manifest, at: nat)
    requires at in Open(m) && Makeable(m) && DepsReady(m, m.jobs[at])
    ensures Step(m, Attempt(m.jobs[at].id, NOTE, PICTURE))
         == Manifest(m.jobs[at := Outcome(m.jobs[at], PICTURE)], FilesWith(m.files, m.jobs[at].id, PICTURE))
  {
    HolderFound(m, at);
    NoRefusal(m, at);
  }

  lemma {:induction false} NoRefusal(m: Manifest, at: nat)
    requires at < |m.jobs| && !m.jobs[at].status.Accepted? && m.jobs[at].attempts < ATTEMPTS && DepsReady(m, m.jobs[at])
    requires File(m.jobs[at].id, ".png") !in m.files
    ensures Refusal(m, at, NOTE, PICTURE).None?
  {
    NoteGiven();
    PictureGiven();
  }

  lemma {:induction false} PictureGiven()
    ensures PICTURE.value.content != "" && PICTURE.value.suffix in SUFFIXES
  {
    assert SUFFIXES[0] == PICTURE.value.suffix;
    assert |PICTURE.value.content| == 7;
  }

  lemma {:induction false} NoteGiven()
    ensures Trim(NOTE) != ""
  {
    TrimBlank(NOTE);
    assert !IsSpace(NOTE[0]);
  }

  lemma {:induction false} OneLessOpen(m: Manifest, at: nat, after: Manifest)
    requires at in Open(m) && Makeable(m)
    requires after == Manifest(m.jobs[at := Outcome(m.jobs[at], PICTURE)], FilesWith(m.files, m.jobs[at].id, PICTURE))
    ensures Makeable(after) && Open(after) < Open(m)
  {
    forall i | 0 <= i < |m.jobs| ensures Holder(after, i) <==> Holder(m, i) { ShadowedStays(m, after, i); }
    assert at !in Open(after);
    forall i | i in Open(after) ensures i in Open(m) && File(after.jobs[i].id, ".png") !in after.files {
      assert i != at;
      assert i in Open(m);
      assert m.jobs[Min(i, at)].id != m.jobs[Max(i, at)].id;
    }
  }

  lemma {:induction false} MakeAll(m: Manifest, plan: seq<PlannedJob>) returns (attempts: seq<Attempt>)
    requires Inv(m, plan) && Makeable(m)
    ensures HoldersAccepted(Run(m, attempts))
    decreases |Open(m)|
  {
    attempts := [];
    if Open(m) != {} {
      var a := MakeOne(m, plan);
      SmallerSet(Open(Step(m, a)), Open(m));
      var rest := MakeAll(Step(m, a), plan);
      attempts := [a] + rest;
      assert attempts[1..] == rest;
    } else {
      forall i | 0 <= i < |m.jobs| && Holder(m, i) ensures m.jobs[i].status.Accepted? { assert i !in Open(m); }
    }
  }

  lemma {:induction false} SmallerSet(a: set<nat>, b: set<nat>)
    requires a < b
    ensures |a| < |b|
  {
    SubsetCardinality(a, b);
    if |a| == |b| { SameSizeSubset(a, b); }
  }

  /** The set made in full: some run of attempts leaves coverage complete. Holds of every accepted plan. */
  lemma {:induction false} CanComplete(products: seq<Product>) returns (attempts: seq<Attempt>)
    requires Plan(products).Ok?
    ensures Missing(Run(NewManifest(Plan(products).value, map[]), attempts), Required(products)) == []
  {
    var start := NewManifest(Plan(products).value, map[]);
    StartInv(products, map[]);
    attempts := MakeAll(start, Plan(products).value);
    EveryRun(products, map[], attempts);
    IntactUndamaged(Run(start, attempts));
    CompleteMeans(Run(start, attempts), products);
  }

  /** Complete in the program's eyes, with a planned picture missing. */
  ghost predicate FalselyComplete(m: Manifest, products: seq<Product>)
    requires Plan(products).Ok?
  {
    Missing(m, Required(products)) == [] && !AllAccepted(m)
  }

  /**
   * What coverage reports is the truth in every run, for any files there were, exactly for unambiguous products:
   * with an ambiguous one, a run ends complete with a planned picture that was never made.
   */
  lemma {:induction false} CompleteHonestIff(products: seq<Product>)
    requires Plan(products).Ok?
    ensures Unambiguous(products)
       <==> forall files, attempts ::
           !FalselyComplete(Run(NewManifest(Plan(products).value, files), attempts), products)
  {
    if Unambiguous(products) {
      forall files, attempts
        ensures !FalselyComplete(Run(NewManifest(Plan(products).value, files), attempts), products) {
        EveryRun(products, files, attempts);
        IntactUndamaged(Run(NewManifest(Plan(products).value, files), attempts));
        CompleteIff(Run(NewManifest(Plan(products).value, files), attempts), products);
      }
    } else {
      var attempts, i := CompleteUnmade(products);
    }
  }

  /** With an ambiguous product: a run after which coverage is complete while a job stands as it was planned. */
  lemma {:induction false} CompleteUnmade(products: seq<Product>) returns (attempts: seq<Attempt>, i: nat)
    requires Plan(products).Ok? && !Unambiguous(products)
    ensures FalselyComplete(Run(NewManifest(Plan(products).value, map[]), attempts), products)
    ensures i < |Plan(products).value| == |Run(NewManifest(Plan(products).value, map[]), attempts).jobs|
    ensures Run(NewManifest(Plan(products).value, map[]), attempts).jobs[i] == NewJob(Plan(products).value[i])
  {
    var start := NewManifest(Plan(products).value, map[]);
    attempts := CanComplete(products);
    StartInv(products, map[]);
    AllHoldIff(start, products);
    i :| 0 <= i < |start.jobs| && !Holder(start, i);
    ShadowedUntouched(start, attempts, i);
  }

  /** Every planned picture can be made exactly when no product is ambiguous. */
  lemma {:induction false} AllMakeableIff(products: seq<Product>)
    requires Plan(products).Ok?
    ensures Unambiguous(products) <==> exists attempts ::
                AllAccepted(Run(NewManifest(Plan(products).value, map[]), attempts))
  {
    var start := NewManifest(Plan(products).value, map[]);
    StartInv(products, map[]);
    AllHoldIff(start, products);
    if Unambiguous(products) {
      var attempts := CanComplete(products);
      EveryRun(products, map[], attempts);
      IntactUndamaged(Run(start, attempts));
      CompleteIff(Run(start, attempts), products);
    } else {
      var i :| 0 <= i < |start.jobs| && !Holder(start, i);
      forall attempts ensures !AllAccepted(Run(start, attempts)) { ShadowedUntouched(start, attempts, i); }
    }
  }

  /** Of two jobs of one id the first stays as planned: complete, with that picture pending and still on offer. */
  lemma {:induction false} CompleteWithout(products: seq<Product>, i: nat, j: nat)
    returns (m: Manifest, attempts: seq<Attempt>)
    requires Plan(products).Ok? && i < j < |Plan(products).value|
    requires RenderedId(Plan(products).value[i].key) == RenderedId(Plan(products).value[j].key)
    ensures m == Run(NewManifest(Plan(products).value, map[]), attempts) && Missing(m, Required(products)) == []
    ensures |m.jobs| == |Plan(products).value| && m.jobs[i] == NewJob(Plan(products).value[i])
    ensures m.jobs[i] in ReadyJobs(m, |m.jobs|)
  {
    var plan := Plan(products).value;
    var start := NewManifest(plan, map[]);
    attempts := CanComplete(products);
    m := Run(start, attempts);
    EveryRun(products, map[], attempts);
    IntactUndamaged(m);
    CompleteMeans(m, products);
    assert start.jobs[i].id == start.jobs[j].id;
    ShadowedUntouched(start, attempts, i);
    OfferedWhenComplete(m, plan, i);
  }

  /** `Lookalikes`: complete, with the variant `x-model` from the front pending and still on offer. */
  lemma {:induction false} LookalikesComplete() returns (m: Manifest, attempts: seq<Attempt>)
    ensures Plan([Lookalikes()]).Ok? && m == Run(NewManifest(Plan([Lookalikes()]).value, map[]), attempts)
    ensures Missing(m, Required([Lookalikes()])) == []
    ensures |m.jobs| == 6 && m.jobs[2].status == Pending && m.jobs[2] in ReadyJobs(m, |m.jobs|)
  {
    RenderedIdsCollide();
    m, attempts := CompleteWithout([Lookalikes()], 2, 5);
  }

  /** Once coverage is complete, a job that was never tried is offered. */
  lemma {:induction false} OfferedWhenComplete(m: Manifest, plan: seq<PlannedJob>, i: nat)
    requires Follows(m, plan) && Undamaged(m) && HoldersAccepted(m) && i < |m.jobs| && m.jobs[i].status.Pending?
    ensures m.jobs[i] in ReadyJobs(m, |m.jobs|)
  {
    LowestIsReady(m, plan, i);
    assert JobOf(plan[i], m.jobs[i]);
    ReadyListed(m, |m.jobs|, i);
  }
}
