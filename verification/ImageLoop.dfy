/** The loop a caller runs: take the first job offered, make it, record the outcome, ask again. */
module ImageLoop {
  import opened Prelude
  import opened Texts
  import opened ImagePlan
  import opened ImageNames
  import opened ImageRuns

  /** What the caller hands in for the job it was offered: a note, and a picture unless making one failed. */
  datatype Answer = Answer(note: string, image: Option<Image>)

  /** Nothing in the answer itself is a reason to refuse it. */
  predicate Usable(a: Answer) {
    && Trim(a.note) != ""
    && (a.image.Some? ==> a.image.value.isFile && a.image.value.content != "" && a.image.value.suffix in SUFFIXES)
  }

  /** The first job offered, which is all a caller sees by default. */
  function First(m: Manifest): Option<Job> {
    var ready := ReadyJobs(m, |m.jobs|);
    if ready == [] then None else Some(ready[0])
  }

  /** Answer after answer is recorded under the id of the job offered first, until none is. */
  function Loop(m: Manifest, answers: seq<Answer>): Manifest
    decreases |answers|
  {
    if answers == [] || First(m).None? then m
    else Loop(Step(m, Attempt(First(m).value.id, answers[0].note, answers[0].image)), answers[1..])
  }

  lemma {:induction false} FirstReady(m: Manifest, n: nat) returns (i: nat)
    requires n <= |m.jobs| && ReadyJobs(m, n) != []
    ensures i < n && ReadyJobs(m, n)[0] == m.jobs[i] && Ready(m, m.jobs[i])
    ensures forall k :: 0 <= k < i ==> !Ready(m, m.jobs[k])
  {
    if ReadyJobs(m, n - 1) != [] {
      i := FirstReady(m, n - 1);
    } else {
      i := n - 1;
      forall k | 0 <= k < i ensures !Ready(m, m.jobs[k]) {
        if Ready(m, m.jobs[k]) { ReadyListed(m, n - 1, k); }
      }
    }
  }

  // --------------------------------------------------- what the loop comes to

  /** No picture is stored yet in the place of an unaccepted job. */
  ghost predicate PlacesFree(m: Manifest) {
    forall i, f :: 0 <= i < |m.jobs| && !m.jobs[i].status.Accepted? && f in m.files ==> f.id != m.jobs[i].id
  }

  ghost predicate AllHold(m: Manifest) { forall i :: 0 <= i < |m.jobs| ==> Holder(m, i) }

  /** The offered job, when it is the one found under its id, takes any usable answer. */
  lemma {:induction false} OfferTaken(m: Manifest, i: nat, a: Answer)
    requires i < |m.jobs| && Ready(m, m.jobs[i]) && Holder(m, i) && PlacesFree(m) && Usable(a)
    ensures Record(m, m.jobs[i].id, a.note, a.image).Ok?
    ensures Record(m, m.jobs[i].id, a.note, a.image).value
         == Manifest(m.jobs[i := Outcome(m.jobs[i], a.image)], FilesWith(m.files, m.jobs[i].id, a.image))
  {
    HolderFound(m, i);
  }

  lemma {:induction false} PlacesStayFree(m: Manifest, i: nat, image: Option<Image>)
    requires i < |m.jobs| && !m.jobs[i].status.Accepted? && AllHold(m) && PlacesFree(m)
    ensures var after := Manifest(m.jobs[i := Outcome(m.jobs[i], image)], FilesWith(m.files, m.jobs[i].id, image));
            PlacesFree(after) && AllHold(after)
  {
    var after := Manifest(m.jobs[i := Outcome(m.jobs[i], image)], FilesWith(m.files, m.jobs[i].id, image));
    forall k | 0 <= k < |m.jobs| ensures Holder(after, k) { ShadowedStays(m, after, k); }
    forall k, f | 0 <= k < |after.jobs| && !after.jobs[k].status.Accepted? && f in after.files
      ensures f.id != after.jobs[k].id
    {
      if k != i { assert Holder(m, Min(i, k)) && m.jobs[Min(i, k)].id != m.jobs[Max(i, k)].id; }
    }
  }

  /** Without shared ids every round of the loop is recorded, so it spends an attempt or has stopped. */
  lemma {:induction false} LoopSpends(m: Manifest, plan: seq<PlannedJob>, answers: seq<Answer>)
    requires Inv(m, plan) && AllHold(m) && PlacesFree(m) && forall i :: 0 <= i < |answers| ==> Usable(answers[i])
    ensures Inv(Loop(m, answers), plan)
    ensures First(Loop(m, answers)).None? || Spent(Loop(m, answers).jobs) == Spent(m.jobs) + |answers|
    decreases |answers|
  {
    if answers != [] && First(m).Some? {
      var i := FirstReady(m, |m.jobs|);
      var a := Attempt(m.jobs[i].id, answers[0].note, answers[0].image);
      OfferTaken(m, i, answers[0]);
      PlacesStayFree(m, i, answers[0].image);
      StepKeeps(m, plan, a);
      LoopSpends(Step(m, a), plan, answers[1..]);
    }
  }

  /** A job with attempts left leaves the sum below its bound. */
  lemma {:induction false} SpentBelow(m: Manifest, plan: seq<PlannedJob>, i: nat)
    requires Follows(m, plan) && i < |m.jobs| && m.jobs[i].attempts < ATTEMPTS
    ensures Spent(m.jobs) < ATTEMPTS * |m.jobs|
  {
    var full := m.jobs[i := m.jobs[i].(attempts := ATTEMPTS)];
    SpentChange(m.jobs, i, m.jobs[i].(attempts := ATTEMPTS));
    forall k | 0 <= k < |full| ensures full[k].attempts <= ATTEMPTS { assert JobOf(plan[k], m.jobs[k]); }
    SpentBound(full);
  }

  lemma {:induction false} StartFree(products: seq<Product>, files: map<File, Content>)
    requires Plan(products).Ok? && Unambiguous(products) && NoPictures(products, files)
    ensures var start := NewManifest(Plan(products).value, files);
            Inv(start, Plan(products).value) && AllHold(start) && PlacesFree(start) && Spent(start.jobs) == 0
  {
    var plan := Plan(products).value;
    var start := NewManifest(plan, files);
    StartInv(products, files);
    AllHoldIff(start, products);
    NothingSpent(start.jobs);
    forall i, f | 0 <= i < |start.jobs| && f in files ensures f.id != start.jobs[i].id {
      assert PlanIds(plan)[i] == start.jobs[i].id;
    }
  }

  /** The output directory holds no picture of the plan. */
  ghost predicate NoPictures(products: seq<Product>, files: map<File, Content>)
    requires Plan(products).Ok?
  {
    forall f :: f in files ==> f.id !in PlanIds(Plan(products).value)
  }

  /**
   * Without ambiguity, whatever comes of the attempts: after at most two records per job the loop has stopped,
   * and then the set is complete or some job has used up its attempts.
   */
  lemma {:induction false} LoopEnds(products: seq<Product>, files: map<File, Content>, answers: seq<Answer>)
    requires Plan(products).Ok? && Unambiguous(products) && NoPictures(products, files)
    requires |answers| >= ATTEMPTS * |Plan(products).value| && forall i :: 0 <= i < |answers| ==> Usable(answers[i])
    ensures var end := Loop(NewManifest(Plan(products).value, files), answers);
            && First(end).None?
            && (Missing(end, Required(products)) == [] || exists i :: 0 <= i < |end.jobs| && Exhausted(end.jobs[i]))
  {
    var plan := Plan(products).value;
    var start := NewManifest(plan, files);
    var end := Loop(start, answers);
    StartFree(products, files);
    LoopSpends(start, plan, answers);
    if First(end).Some? {
      var i := FirstReady(end, |end.jobs|);
      SpentBelow(end, plan, i);
    }
    IntactUndamaged(end);
    StuckMeansDoneOrExhausted(end, products);
  }

  // ------------------------------------------------------------ shared ids

  /** A usable answer for the job offered first is recorded exactly when the job found under its id is ready itself. */
  lemma {:induction false} OfferTakenIff(m: Manifest, a: Answer)
    requires First(m).Some? && PlacesFree(m) && Usable(a)
    ensures Find(m.jobs, First(m).value.id).Some?
    ensures Record(m, First(m).value.id, a.note, a.image).Ok?
       <==> Ready(m, m.jobs[Find(m.jobs, First(m).value.id).value])
  {
    var i := FirstReady(m, |m.jobs|);
    assert Find(m.jobs, m.jobs[i].id).Some?;
    NotReadyRefused(m, m.jobs[i].id, a);
    var at := Find(m.jobs, m.jobs[i].id).value;
    if Ready(m, m.jobs[at]) { OfferTaken(m, at, a); }
  }

  lemma {:induction false} NotReadyRefused(m: Manifest, id: string, a: Answer)
    requires Find(m.jobs, id).Some?
    ensures Record(m, id, a.note, a.image).Ok? ==> Ready(m, m.jobs[Find(m.jobs, id).value])
  {
  }

  /**
   * A job is offered first whose id finds another one, accepted already, used up, or still waiting: whatever is
   * handed in is refused, so the loop stays where it is, with every later job unmade.
   */
  lemma {:induction false} LoopStays(m: Manifest, answers: seq<Answer>)
    requires First(m).Some? && Find(m.jobs, First(m).value.id).Some?
    requires !Ready(m, m.jobs[Find(m.jobs, First(m).value.id).value])
    ensures Loop(m, answers) == m
    decreases |answers|
  {
    if answers != [] {
      NotReadyRefused(m, First(m).value.id, answers[0]);
      LoopStays(m, answers[1..]);
    }
  }

  /** No attempt has failed: a job that is not accepted was never tried. */
  ghost predicate NoFailures(m: Manifest) {
    forall i :: 0 <= i < |m.jobs| && !m.jobs[i].status.Accepted? ==> m.jobs[i].attempts == 0
  }

  lemma {:induction false} LoopNoFailures(m: Manifest, plan: seq<PlannedJob>, answers: seq<Answer>)
    requires Inv(m, plan) && NoFailures(m) && forall i :: 0 <= i < |answers| ==> answers[i].image.Some?
    ensures Inv(Loop(m, answers), plan) && NoFailures(Loop(m, answers))
    decreases |answers|
  {
    if answers != [] && First(m).Some? {
      var a := Attempt(First(m).value.id, answers[0].note, answers[0].image);
      StepKeeps(m, plan, a);
      StepNoFailures(m, a);
      LoopNoFailures(Step(m, a), plan, answers[1..]);
    }
  }

  lemma {:induction false} StepNoFailures(m: Manifest, a: Attempt)
    requires NoFailures(m) && a.image.Some?
    ensures NoFailures(Step(m, a))
  {
  }

  /** The attempts the loop makes. */
  function Made(m: Manifest, answers: seq<Answer>): seq<Attempt>
    decreases |answers|
  {
    if answers == [] || First(m).None? then []
    else
      var a := Attempt(First(m).value.id, answers[0].note, answers[0].image);
      [a] + Made(Step(m, a), answers[1..])
  }

  lemma {:induction false} LoopIsRun(m: Manifest, answers: seq<Answer>)
    ensures Loop(m, answers) == Run(m, Made(m, answers))
    decreases |answers|
  {
    if answers != [] && First(m).Some? {
      var a := Attempt(First(m).value.id, answers[0].note, answers[0].image);
      LoopIsRun(Step(m, a), answers[1..]);
      assert Made(m, answers)[1..] == Made(Step(m, a), answers[1..]);
    }
  }

  /**
   * With nothing but good pictures, from an empty directory: the loop stops, with every job accepted, exactly when no
   * product is ambiguous. With an ambiguous one it never stops, however many pictures are handed in.
   */
  lemma {:induction false} LoopStopsIff(products: seq<Product>, answers: seq<Answer>)
    requires Plan(products).Ok? && |answers| >= ATTEMPTS * |Plan(products).value|
    requires forall i :: 0 <= i < |answers| ==> Usable(answers[i]) && answers[i].image.Some?
    ensures var end := Loop(NewManifest(Plan(products).value, map[]), answers);
            && (First(end).None? <==> Unambiguous(products))
            && (AllAccepted(end) <==> Unambiguous(products))
  {
    var end := Loop(NewManifest(Plan(products).value, map[]), answers);
    StartInv(products, map[]);
    LoopNoFailures(NewManifest(Plan(products).value, map[]), Plan(products).value, answers);
    IntactUndamaged(end);
    OfferedUnlessDone(end, Plan(products).value);
    if Unambiguous(products) { LoopEnds(products, map[], answers); } else { LoopLeavesOne(products, map[], answers); }
  }

  /** With an ambiguous product the loop, like any run, leaves a job as it was planned. */
  lemma {:induction false} LoopLeavesOne(products: seq<Product>, files: map<File, Content>, answers: seq<Answer>)
    requires Plan(products).Ok? && !Unambiguous(products)
    ensures !AllAccepted(Loop(NewManifest(Plan(products).value, files), answers))
  {
    var start := NewManifest(Plan(products).value, files);
    StartInv(products, files);
    AllHoldIff(start, products);
    var i :| 0 <= i < |start.jobs| && !Holder(start, i);
    LoopIsRun(start, answers);
    ShadowedUntouched(start, Made(start, answers), i);
  }

  lemma {:induction false} OfferedUnlessDone(m: Manifest, plan: seq<PlannedJob>)
    requires Follows(m, plan) && Undamaged(m) && NoFailures(m)
    ensures First(m).None? ==> AllAccepted(m)
  {
    if exists i :: 0 <= i < |m.jobs| && !m.jobs[i].status.Accepted? { SomethingReady(m, plan); }
  }

  // ---------------------------------------------------------------- an example

  /** How long the ids of `Lookalikes` are: only the two that are the same are of one length. */
  lemma {:induction false} LookalikeIds()
    ensures Plan([Lookalikes()]).Ok? && |Plan([Lookalikes()]).value| == 6
    ensures var ids := PlanIds(Plan([Lookalikes()]).value);
            |ids[0]| == 7 && |ids[1]| == 13 && |ids[2]| == 23 && |ids[3]| == 29 && |ids[4]| == 17 && |ids[5]| == 23
    ensures PlanIds(Plan([Lookalikes()]).value)[2] == PlanIds(Plan([Lookalikes()]).value)[5]
  {
    LookalikesPlan();
    SameLiteral();
    TwoJobsAt(None);
    TwoJobsAt(Some("x-model"));
    TwoJobsAt(Some("x"));
    assert |ShotName(Front)| == 5 && |ShotName(ModelFront)| == 11;
    assert |Head(Some("x-model"))| == 16 && |Head(Some("x"))| == 10;
  }

  /** The jobs of `Lookalikes`, of which the first `n` have their pictures and the others are pending. */
  ghost predicate MadeUpTo(m: Manifest, n: nat) {
    && |m.jobs| == 6 && n <= 6 && PlacesFree(m)
    && |m.jobs[0].id| == 7 && |m.jobs[1].id| == 13 && |m.jobs[2].id| == 23 && |m.jobs[3].id| == 29
    && |m.jobs[4].id| == 17 && m.jobs[5].id == m.jobs[2].id
    && m.jobs[0].deps == [] && m.jobs[1].deps == [m.jobs[0].id] && m.jobs[2].deps == [m.jobs[0].id]
    && m.jobs[5].deps == [m.jobs[1].id, m.jobs[4].id]
    && (forall k :: 0 <= k < n ==> ValidOutput(m, m.jobs[k]))
    && (forall k :: n <= k < 6 ==> m.jobs[k].status.Pending? && m.jobs[k].attempts == 0)
  }

  lemma {:induction false} LookalikeDeps()
    ensures Plan([Lookalikes()]).Ok? && |Plan([Lookalikes()]).value| == 6
    ensures var plan := Plan([Lookalikes()]).value;
            && plan[0].deps == [] && plan[1].deps == [plan[0].key] && plan[2].deps == [plan[0].key]
            && plan[5].deps == [plan[1].key, plan[4].key]
  {
    LookalikesPlan();
  }

  lemma {:induction false} LookalikesStart()
    ensures Plan([Lookalikes()]).Ok? && MadeUpTo(NewManifest(Plan([Lookalikes()]).value, map[]), 0)
  {
    LookalikeIds();
    LookalikeDeps();
    var plan := Plan([Lookalikes()]).value;
    var m := NewManifest(plan, map[]);
    forall k | 0 <= k < 6 ensures m.jobs[k] == NewJob(plan[k]) && m.jobs[k].id == PlanIds(plan)[k] { }
    assert RenderedIds([]) == [];
    assert RenderedIds([plan[0].key]) == [m.jobs[0].id];
    assert RenderedIds([plan[1].key, plan[4].key]) == [m.jobs[1].id, m.jobs[4].id];
  }

  /** Each id but the shared one is found where it stands. */
  lemma {:induction false} FoundByLength(m: Manifest, n: nat, k: nat)
    requires MadeUpTo(m, n) && k < 6 && k != 2
    ensures Find(m.jobs, m.jobs[k].id) == Some(k) && Holder(m, k)
  {
    HolderFound(m, k);
  }

  lemma {:induction false} NextOffered(m: Manifest, n: nat)
    requires MadeUpTo(m, n) && n <= 2
    ensures First(m) == Some(m.jobs[n]) && Ready(m, m.jobs[n])
  {
    FoundByLength(m, n, 0);
    assert Ready(m, m.jobs[n]);
    ReadyListed(m, 6, n);
    var i := FirstReady(m, 6);
    assert i == n;
  }

  /** The next picture recorded where it was offered. */
  lemma {:induction false} NextMade(m: Manifest, n: nat, a: Answer) returns (after: Manifest)
    requires MadeUpTo(m, n) && n <= 1 && Usable(a) && a.image.Some?
    ensures after == Step(m, Attempt(m.jobs[n].id, a.note, a.image)) && MadeUpTo(after, n + 1)
  {
    NextOffered(m, n);
    FoundByLength(m, n, n);
    OfferTaken(m, n, a);
    after := Step(m, Attempt(m.jobs[n].id, a.note, a.image));
    var file := File(m.jobs[n].id, a.image.value.suffix);
    assert after.files == m.files[file := a.image.value.content];
    forall k | 0 <= k < n ensures ValidOutput(after, after.jobs[k]) {
      assert ValidOutput(m, m.jobs[k]);
      assert !(file in m.files) by { assert !m.jobs[n].status.Accepted?; }
    }
    forall k, f | 0 <= k < 6 && !after.jobs[k].status.Accepted? && f in after.files ensures f.id != after.jobs[k].id {
      assert after.jobs[k] == m.jobs[k];
    }
  }

  lemma {:induction false} OneRound(m: Manifest, a: Answer, rest: seq<Answer>)
    requires First(m).Some?
    ensures Loop(m, [a] + rest) == Loop(Step(m, Attempt(First(m).value.id, a.note, a.image)), rest)
  {
    assert ([a] + rest)[1..] == rest;
  }

  lemma {:induction false} NextRound(m: Manifest, n: nat, a: Answer, rest: seq<Answer>) returns (after: Manifest)
    requires MadeUpTo(m, n) && n <= 1 && Usable(a) && a.image.Some?
    ensures MadeUpTo(after, n + 1) && Loop(m, [a] + rest) == Loop(after, rest)
  {
    NextOffered(m, n);
    after := NextMade(m, n, a);
    OneRound(m, a, rest);
  }

  lemma {:induction false} StuckAtShared(m: Manifest, answers: seq<Answer>)
    requires MadeUpTo(m, 2)
    ensures First(m) == Some(m.jobs[2]) && Loop(m, answers) == m
  {
    NextOffered(m, 2);
    FoundByLength(m, 2, 4);
    FoundByLength(m, 2, 5);
    assert !DepReady(m, m.jobs[5].deps[1]);
    LoopStays(m, answers);
  }

  /**
   * `Lookalikes`, made as offered: the two base pictures are recorded, then `x-model` from the front is offered, its id
   * finds `x` on a model, which waits for a picture not made yet, and nothing handed in from then on is recorded.
   */
  lemma {:induction false} LookalikesLoopStays(first: Answer, second: Answer, more: seq<Answer>)
    requires Usable(first) && first.image.Some? && Usable(second) && second.image.Some?
    ensures Plan([Lookalikes()]).Ok?
    ensures var end := Loop(NewManifest(Plan([Lookalikes()]).value, map[]), [first] + ([second] + more));
            && |end.jobs| == 6 && First(end) == Some(end.jobs[2])
            && forall i :: 2 <= i < 6 ==> end.jobs[i].status.Pending?
  {
    LookalikesStart();
    var once := NextRound(NewManifest(Plan([Lookalikes()]).value, map[]), 0, first, [second] + more);
    var twice := NextRound(once, 1, second, more);
    StuckAtShared(twice, more);
  }
}
