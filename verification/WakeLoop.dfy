/** Waking a sleeping API: a retry loop bounded by elapsed time, and the number of requests that bounds. */
module WakeLoop {
  import opened Prelude

  datatype Reason = Configuration | Aborted | MalformedResponse | Network | Timeout | Http

  datatype Health = Answered(searchOk: bool) | Failed(reason: Reason)

  /** Milliseconds; only what the loop reads. */
  datatype Policy = Policy(attemptTimeoutMs: real, budgetMs: real, backoffMs: seq<real>)

  const WAKE_POLICY := Policy(90000.0, 150000.0, [1000.0, 2000.0, 4000.0, 8000.0])

  /** The wait before retry `attempt`; the last entry repeats, and an empty schedule waits for nothing. */
  function BackoffFor(policy: Policy, attempt: nat): real
    requires attempt >= 1
  {
    if policy.backoffMs == [] then 0.0 else policy.backoffMs[Min(attempt - 1, |policy.backoffMs| - 1)]
  }

  /**
   * What the world does: how long attempt `n` takes and what it says, how late the timer after it fires, whether the
   * visitor left.
   */
  datatype World = World(latency: nat -> real, answer: nat -> Health, late: nat -> real, leaves: nat -> bool)

  ghost predicate Sane(w: World) { forall n :: w.latency(n) >= 0.0 && w.late(n) >= 0.0 }

  predicate IsWorthRetrying(result: Health, waitsForSearch: bool) {
    match result
    case Answered(searchOk) => waitsForSearch && !searchOk
    case Failed(reason) => !reason.Configuration? && !reason.Aborted? && !reason.MalformedResponse?
  }

  ghost predicate Positive(policy: Policy, least: real) {
    least > 0.0 && policy.backoffMs != [] && forall i :: 0 <= i < |policy.backoffMs| ==> policy.backoffMs[i] >= least
  }

  lemma {:induction false} BackoffAtLeast(policy: Policy, least: real, attempt: nat)
    requires Positive(policy, least) && attempt >= 1
    ensures BackoffFor(policy, attempt) >= least
  {
  }

  // ----------------------------------------------------------- specification

  /** When attempt `n` starts, if it is made: everything before it, waits and delays included. */
  function StartOf(policy: Policy, w: World, n: nat): real
    requires n >= 1
  {
    if n == 1 then 0.0 else StartOf(policy, w, n - 1) + w.latency(n - 1) + BackoffFor(policy, n - 1) + w.late(n - 1)
  }

  /** After attempt `n` the loop asks again: a passing failure, and the next wait still fits the budget. */
  predicate GoesOn(policy: Policy, w: World, waitsForSearch: bool, n: nat)
    requires n >= 1
  {
    && IsWorthRetrying(w.answer(n), waitsForSearch)
    && StartOf(policy, w, n) + w.latency(n) + BackoffFor(policy, n) < policy.budgetMs
    && !w.leaves(n)
  }

  /** Attempt `n` is made: every one before it went on. */
  ghost predicate Made(policy: Policy, w: World, waitsForSearch: bool, n: nat) {
    n >= 1 && forall k :: 1 <= k < n ==> GoesOn(policy, w, waitsForSearch, k)
  }

  /** What the caller gets when attempt `n` is the last. */
  function Verdict(policy: Policy, w: World, waitsForSearch: bool, n: nat): Health
    requires n >= 1
  {
    if !IsWorthRetrying(w.answer(n), waitsForSearch) then w.answer(n)
    else if StartOf(policy, w, n) + w.latency(n) + BackoffFor(policy, n) >= policy.budgetMs then w.answer(n)
    else Failed(Aborted)
  }

  // ------------------------------------------------------------------- loop

  lemma {:induction false} TimeRunsDown(budget: real, before: real, after: real, least: real)
    requires least > 0.0 && before <= budget && after >= before + least
    ensures 0.0 <= (budget - before) / least && (budget - after) / least <= (budget - before) / least - 1.0
  {
    var p, q := (budget - before) / least, (budget - after) / least;
    assert p * least == budget - before && q * least == budget - after;
    assert (p - 1.0 - q) * least == p * least - least - q * least;
    NotNegative(p, least);
    NotNegative(p - 1.0 - q, least);
  }

  lemma {:induction false} NotNegative(x: real, y: real)
    requires y > 0.0 && x * y >= 0.0
    ensures x >= 0.0
  {
  }

  /**
   * Asks until something final is said, the visitor leaves or the budget is spent; `attempts` are the requests made.
   */
  method WakeApi(policy: Policy, w: World, waitsForSearch: bool, ghost least: real)
    returns (result: Health, attempts: nat, told: seq<nat>)
    requires Positive(policy, least) && Sane(w)
    ensures Made(policy, w, waitsForSearch, attempts) && !GoesOn(policy, w, waitsForSearch, attempts)
    ensures result == Verdict(policy, w, waitsForSearch, attempts)
    ensures |told| == attempts && forall i :: 0 <= i < attempts ==> told[i] == i + 1
  {
    var elapsed := 0.0;
    attempts, told := 1, [];
    while true
      invariant attempts >= 1 && elapsed == StartOf(policy, w, attempts)
      invariant Made(policy, w, waitsForSearch, attempts)
      invariant |told| == attempts - 1 && forall i :: 0 <= i < |told| ==> told[i] == i + 1
      decreases (policy.budgetMs - elapsed) / least
    {
      ghost var before := elapsed;
      told := told + [attempts];
      result := w.answer(attempts);
      elapsed := elapsed + w.latency(attempts);
      if !IsWorthRetrying(result, waitsForSearch) { return; }
      var backoff := BackoffFor(policy, attempts);
      BackoffAtLeast(policy, least, attempts);
      if elapsed + backoff >= policy.budgetMs { return; }
      elapsed := elapsed + backoff + w.late(attempts);
      TimeRunsDown(policy.budgetMs, before, elapsed, least);
      if w.leaves(attempts) {
        result := Failed(Aborted);
        return;
      }
      attempts := attempts + 1;
    }
  }

  // ------------------------------------------------------------ the bounds

  /** The waits before attempt `n`, without any latency. */
  function Waits(policy: Policy, n: nat): real
    requires n >= 1
  {
    if n == 1 then 0.0 else Waits(policy, n - 1) + BackoffFor(policy, n - 1)
  }

  lemma {:induction false} WaitsAreLeast(policy: Policy, w: World, n: nat)
    requires Sane(w) && n >= 1
    ensures StartOf(policy, w, n) >= Waits(policy, n)
  {
    if n > 1 { WaitsAreLeast(policy, w, n - 1); }
  }

  /** A request after the first is made only if the waits before it fit the budget, whatever is answered. */
  lemma {:induction false} RequestsBounded(policy: Policy, w: World, waitsForSearch: bool, n: nat)
    requires Sane(w) && Made(policy, w, waitsForSearch, n) && n > 1
    ensures Waits(policy, n) < policy.budgetMs
  {
    WaitsAreLeast(policy, w, n - 1);
    assert GoesOn(policy, w, waitsForSearch, n - 1);
  }

  /** The waits bound the number of requests under every policy with positive waits, so the loop ends. */
  lemma {:induction false} WaitsGrow(policy: Policy, least: real, n: nat)
    requires Positive(policy, least) && n >= 1
    ensures Waits(policy, n) >= (n - 1) as real * least
  {
    if n > 1 {
      WaitsGrow(policy, least, n - 1);
      BackoffAtLeast(policy, least, n - 1);
    }
  }

  lemma {:induction false} AttemptsBounded(policy: Policy, w: World, waitsForSearch: bool, least: real, n: nat)
    requires Positive(policy, least) && Sane(w) && Made(policy, w, waitsForSearch, n) && n > 1
    ensures (n - 1) as real * least < policy.budgetMs
  {
    WaitsGrow(policy, least, n);
    RequestsBounded(policy, w, waitsForSearch, n);
  }

  lemma {:induction false} WakePolicyWaits(n: nat)
    requires n >= 5
    ensures Waits(WAKE_POLICY, n) == 15000.0 + 8000.0 * (n - 5) as real
  {
    if n == 5 {
      assert Waits(WAKE_POLICY, 1) == 0.0;
      assert Waits(WAKE_POLICY, 2) == 1000.0;
      assert Waits(WAKE_POLICY, 3) == 3000.0;
      assert Waits(WAKE_POLICY, 4) == 7000.0;
    } else {
      WakePolicyWaits(n - 1);
      assert BackoffFor(WAKE_POLICY, n - 1) == 8000.0;
    }
  }

  /** Under the shipped policy at most 21 requests are made, whatever the answers, latencies and timers. */
  lemma {:induction false} AtMost21(w: World, waitsForSearch: bool, n: nat)
    requires Sane(w) && Made(WAKE_POLICY, w, waitsForSearch, n)
    ensures n <= 21
  {
    if n > 1 { RequestsBounded(WAKE_POLICY, w, waitsForSearch, n); }
    if n >= 5 { WakePolicyWaits(n); }
  }

  /** An instance that refuses at once, and timers that are exact. */
  const REFUSING := World((n: nat) => 0.0, (n: nat) => Failed(Network), (n: nat) => 0.0, (n: nat) => false)

  lemma {:induction false} RefusingStarts(n: nat)
    requires n >= 1
    ensures StartOf(WAKE_POLICY, REFUSING, n) == Waits(WAKE_POLICY, n)
  {
    if n > 1 { RefusingStarts(n - 1); }
  }

  lemma {:induction false} WaitsMonotone(n: nat, m: nat)
    requires 1 <= n <= m
    ensures Waits(WAKE_POLICY, n) <= Waits(WAKE_POLICY, m)
  {
    if n < m { WaitsMonotone(n, m - 1); }
  }

  /** And 21 is reached: the bound is exact. */
  lemma {:induction false} Makes21(waitsForSearch: bool)
    ensures Sane(REFUSING) && Made(WAKE_POLICY, REFUSING, waitsForSearch, 21)
    ensures !GoesOn(WAKE_POLICY, REFUSING, waitsForSearch, 21)
  {
    WakePolicyWaits(21);
    WakePolicyWaits(22);
    forall k | 1 <= k < 21 ensures GoesOn(WAKE_POLICY, REFUSING, waitsForSearch, k) {
      RefusingStarts(k);
      WaitsMonotone(k + 1, 21);
    }
    RefusingStarts(21);
  }

  /** With exact timers the last request starts before the budget ends, and its deadline bounds the whole wait. */
  lemma {:induction false} LastStartsInBudget(policy: Policy, w: World, waitsForSearch: bool, n: nat)
    requires Sane(w) && (forall k :: w.late(k) == 0.0) && policy.budgetMs > 0.0 && Made(policy, w, waitsForSearch, n)
    ensures StartOf(policy, w, n) < policy.budgetMs
    ensures w.latency(n) <= policy.attemptTimeoutMs ==>
                StartOf(policy, w, n) + w.latency(n) < policy.budgetMs + policy.attemptTimeoutMs
  {
    if n > 1 { assert GoesOn(policy, w, waitsForSearch, n - 1); }
  }

  /** A passing failure is handed back only when not even the next wait would have fitted the budget. */
  lemma {:induction false} GivesUpOnlyWhenSpent(policy: Policy, w: World, waitsForSearch: bool, n: nat)
    requires Made(policy, w, waitsForSearch, n) && !GoesOn(policy, w, waitsForSearch, n)
    requires IsWorthRetrying(Verdict(policy, w, waitsForSearch, n), waitsForSearch)
    ensures Verdict(policy, w, waitsForSearch, n) == w.answer(n)
    ensures StartOf(policy, w, n) + w.latency(n) + BackoffFor(policy, n) >= policy.budgetMs
  {
  }

  /**
   * What is worth another attempt: no connection, no answer in time, a failed answer; or a search not up that is
   * needed.
   */
  lemma {:induction false} WorthRetryingExact(result: Health, waitsForSearch: bool)
    ensures IsWorthRetrying(result, waitsForSearch)
       <==> result in {Failed(Network), Failed(Timeout), Failed(Http)} || (waitsForSearch && result == Answered(false))
  {
  }

  /**
   * The shipped waits: one, two, four, and then eight seconds each time; two and a half minutes in all, one and a half
   * each.
   */
  lemma {:induction false} ShippedWaits(attempt: nat)
    requires attempt >= 1
    ensures BackoffFor(WAKE_POLICY, attempt)
         == if attempt == 1 then 1000.0 else if attempt == 2 then 2000.0 else if attempt == 3 then 4000.0 else 8000.0
    ensures WAKE_POLICY.budgetMs == 150000.0 && WAKE_POLICY.attemptTimeoutMs == 90000.0
  {
  }
}
