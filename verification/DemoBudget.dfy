/** The batch limiter in front of demo accounts: one stored batch of times, yet a sliding window is respected. */
module DemoBudget {
  import opened Prelude

  /** The issues one address may make inside the server's window. */
  datatype Limits = Limits(limit: nat, windowSeconds: nat)

  /** The window waited for: the server's own and a margin, in milliseconds. */
  function WindowMs(l: Limits): nat { l.windowSeconds * 1000 + 5000 }

  /** A server instant as an HTTP date tells it. */
  function Dated(t: int): int { t - t % 1000 }

  // ---------------------------------------------------------------- the file

  predicate Expired(l: Limits, batch: seq<int>, date: int) {
    forall i :: 0 <= i < |batch| ==> batch[i] <= date - WindowMs(l)
  }

  /** What a poll answers: how many issues of the batch still count. */
  function Polled(l: Limits, batch: seq<int>, date: int): nat { if Expired(l, batch, date) then 0 else |batch| }

  predicate MayIssue(l: Limits, batch: seq<int>, date: int) { Polled(l, batch, date) < l.limit }

  /** The batch after an issue answered at `date`; a full batch is dropped first. */
  function Recorded(l: Limits, batch: seq<int>, date: int): seq<int> {
    (if |batch| >= l.limit then [] else batch) + [date + 1000]
  }

  class Budget {
    const l: Limits
    var file: seq<int>

    constructor (l: Limits)
      ensures this.l == l && file == []
    {
      this.l, file := l, [];
    }

    /** Polls until an issue may be made; the dates are those of the successive health answers before the timeout. */
    method WaitForBudget(dates: seq<int>) returns (passed: Option<nat>)
      ensures passed.Some? ==> passed.value < |dates| && MayIssue(l, file, Dated(dates[passed.value]))
      ensures forall i :: 0 <= i < |dates| && (passed.Some? ==> i < passed.value) ==>
                  !MayIssue(l, file, Dated(dates[i]))
    {
      for i := 0 to |dates|
        invariant forall j :: 0 <= j < i ==> !MayIssue(l, file, Dated(dates[j]))
      {
        var answer := if Expired(l, file, Dated(dates[i])) then 0 else |file|;
        if answer < l.limit { return Some(i); }
      }
      return None;
    }

    /** Records an issue; HTTP dates have whole seconds, so it is kept through the next one. */
    method RecordIssue(t: int)
      modifies this
      ensures file == Recorded(l, old(file), Dated(t))
    {
      var now := Dated(t) + 1000;
      var batch := if |file| >= l.limit then [] else file;
      file := batch + [now];
    }
  }

  /**
   * An issue may be made when the file holds fewer than the limit, or, if any at all may be, when all it holds are
   * older
   * than the window and five seconds at the last full second.
   */
  lemma {:induction false} MayIssueExact(l: Limits, batch: seq<int>, t: int)
    ensures MayIssue(l, batch, Dated(t))
       <==> |batch| < l.limit
            || (0 < l.limit && forall i :: 0 <= i < |batch| ==>
                                 batch[i] + l.windowSeconds * 1000 + 5000 <= (t / 1000) * 1000)
  {
  }

  /** An issue is noted as of the end of its second; a file that was full is started anew. */
  lemma {:induction false} RecordedExact(l: Limits, batch: seq<int>, t: int)
    ensures Recorded(l, batch, Dated(t)) == (if |batch| < l.limit then batch else []) + [(t / 1000) * 1000 + 1000]
  {
  }

  // -------------------------------------------------------------------- runs

  /**
   * One account: the poll that let it through was answered at `polled`, it was issued at `issued` and answered at
   * `answered`.
   */
  datatype Issue = Issue(polled: int, issued: int, answered: int)

  /** A single worker on a server clock that never goes back. */
  ghost predicate InOrder(run: seq<Issue>) {
    && (forall i :: 0 <= i < |run| ==> run[i].polled <= run[i].issued <= run[i].answered)
    && (forall i, j :: 0 <= i < j < |run| ==> run[i].answered <= run[j].polled)
  }

  /** The file after the first `n` issues. */
  function FileAt(l: Limits, run: seq<Issue>, n: nat): seq<int>
    requires n <= |run|
  {
    if n == 0 then [] else Recorded(l, FileAt(l, run, n - 1), Dated(run[n - 1].answered))
  }

  /** Every issue waited for its poll. */
  ghost predicate Waited(l: Limits, run: seq<Issue>) {
    forall n :: 0 <= n < |run| ==> MayIssue(l, FileAt(l, run, n), Dated(run[n].polled))
  }

  ghost predicate IsRun(l: Limits, run: seq<Issue>) { l.limit > 0 && InOrder(run) && Waited(l, run) }

  // -------------------------------------------------------------- the proof

  function Noted(run: seq<Issue>, k: nat): int
    requires k < |run|
  {
    Dated(run[k].answered) + 1000
  }

  /** The file always holds the last issues, one to `limit` of them. */
  lemma {:induction false} FileIsTail(l: Limits, run: seq<Issue>, n: nat)
    requires l.limit > 0 && n <= |run|
    ensures |FileAt(l, run, n)| <= l.limit && |FileAt(l, run, n)| <= n && (n > 0 ==> FileAt(l, run, n) != [])
    ensures forall i :: 0 <= i < |FileAt(l, run, n)| ==> FileAt(l, run, n)[i] == Noted(run, n - |FileAt(l, run, n)| + i)
  {
    if n > 0 { FileIsTail(l, run, n - 1); }
  }

  ghost predicate Full(l: Limits, run: seq<Issue>, n: nat)
    requires n <= |run|
  {
    |FileAt(l, run, n)| >= l.limit
  }

  /** Without a full batch in between, the file grows by one with every issue. */
  lemma {:induction false} GrowsUntilFull(l: Limits, run: seq<Issue>, m: nat, n: nat)
    requires l.limit > 0 && m <= n <= |run|
    requires forall k :: m <= k < n ==> !Full(l, run, k)
    ensures |FileAt(l, run, n)| == |FileAt(l, run, m)| + (n - m)
  {
    if m < n {
      GrowsUntilFull(l, run, m, n - 1);
      assert !Full(l, run, n - 1);
    }
  }

  /** Among `limit` issues in a row, one found the batch full. */
  lemma {:induction false} SomeFull(l: Limits, run: seq<Issue>, i: nat) returns (k: nat)
    requires l.limit > 0 && i + l.limit < |run|
    ensures i < k <= i + l.limit && Full(l, run, k)
  {
    if forall k :: i + 1 <= k < i + l.limit ==> !Full(l, run, k) {
      FileIsTail(l, run, i + 1);
      GrowsUntilFull(l, run, i + 1, i + l.limit);
      k := i + l.limit;
    } else {
      k :| i + 1 <= k < i + l.limit && Full(l, run, k);
    }
  }

  lemma {:induction false} DatedBounds(t: int)
    ensures t - 1000 < Dated(t) <= t
  {
  }

  /** The issue that found the batch full came more than the window after every issue the batch still held. */
  lemma {:induction false} FullMeansLater(l: Limits, run: seq<Issue>, i: nat, k: nat)
    requires IsRun(l, run) && i < k <= i + l.limit && k < |run| && Full(l, run, k)
    ensures run[k].issued - run[i].issued > WindowMs(l)
  {
    FileIsTail(l, run, k);
    var batch := FileAt(l, run, k);
    assert MayIssue(l, batch, Dated(run[k].polled));
    assert batch[i - (k - l.limit)] == Noted(run, i);
    DatedBounds(run[i].answered);
    DatedBounds(run[k].polled);
  }

  /** The issues made in the interval from `from` to `from` plus the window, both ends included. */
  ghost function IssuedWithin(run: seq<Issue>, from: int, length: nat): set<nat> {
    set k | 0 <= k < |run| && from <= run[k].issued <= from + length
  }

  lemma {:induction false} IssuedOrdered(run: seq<Issue>, i: nat, j: nat)
    requires InOrder(run) && i <= j < |run|
    ensures run[i].issued <= run[j].issued
  {
    if i < j { assert run[i].answered <= run[j].polled; }
  }

  /** Any `limit` + 1 issues in a row span more than the window, although only one batch is remembered. */
  lemma {:induction false} SpanExceedsWindow(l: Limits, run: seq<Issue>, i: nat, j: nat)
    requires IsRun(l, run) && i + l.limit <= j < |run|
    ensures run[j].issued - run[i].issued > WindowMs(l)
  {
    var k := SomeFull(l, run, i);
    FullMeansLater(l, run, i, k);
    IssuedOrdered(run, k, j);
  }

  lemma {:induction false} LeastOf(s: set<nat>) returns (lo: nat)
    requires s != {}
    ensures lo in s && forall k :: k in s ==> lo <= k
    decreases |s|
  {
    lo := Pick(s);
    var rest := s - {lo};
    if rest != {} {
      var other := LeastOf(rest);
      if other < lo { lo := other; }
    }
    assert forall k :: k in s ==> k in rest || k == lo || k in s - rest;
  }

  /** In every single-worker run, no interval as long as the server's window holds more than the limit. */
  lemma {:induction false} WindowRespected(l: Limits, run: seq<Issue>, from: int)
    requires IsRun(l, run)
    ensures |IssuedWithin(run, from, l.windowSeconds * 1000)| <= l.limit
  {
    var within := IssuedWithin(run, from, l.windowSeconds * 1000);
    if within != {} {
      var lo := LeastOf(within);
      forall k | k in within ensures lo <= k < lo + l.limit {
        if k >= lo + l.limit { SpanExceedsWindow(l, run, lo, k); }
      }
      RangeSize(within, lo, l.limit);
    }
  }

  lemma {:induction false} RangeSize(s: set<nat>, lo: nat, n: nat)
    requires forall k :: k in s ==> lo <= k < lo + n
    ensures |s| <= n
  {
    if n == 0 {
      assert s == {};
    } else {
      var last := lo + n - 1;
      RangeSize(s - {last}, lo, n - 1);
      assert s <= (s - {last}) + {last};
      SubsetCardinality(s, (s - {last}) + {last});
    }
  }

  /** The wait ends: a poll answered late enough after the last issue always passes, well before its timeout. */
  lemma {:induction false} WaitEnds(l: Limits, run: seq<Issue>, n: nat, polled: int)
    requires l.limit > 0 && InOrder(run) && 0 < n <= |run| && polled >= run[n - 1].answered + WindowMs(l) + 2000
    ensures MayIssue(l, FileAt(l, run, n), Dated(polled))
    ensures WindowMs(l) + 2000 < 2 * WindowMs(l)
  {
    FileIsTail(l, run, n);
    var batch := FileAt(l, run, n);
    DatedBounds(polled);
    forall i | 0 <= i < |batch| ensures batch[i] <= Dated(polled) - WindowMs(l) {
      var k := n - |batch| + i;
      DatedBounds(run[k].answered);
      assert k == n - 1 || run[k].answered <= run[n - 1].polled;
    }
  }
}
