/**
 * Concurrent bulk status changes: each call takes its row locks one by one in sorted order and holds them to the end.
 */
module BulkStatusLocks {
  import opened Prelude
  import ProductWrites

  /** One transaction: the rows it will lock, how many it holds, the version it read of each, and how it ended. */
  datatype Call = Call(ids: seq<nat>, held: nat, seen: map<nat, nat>, done: bool, committed: bool)

  /** The calls under way and the version of every live row. */
  datatype System = System(calls: seq<Call>, versions: map<nat, nat>)

  /** A step of call `t`: what it does next, or an error that rolls it back. */
  datatype Action = Advance(t: nat) | Fail(t: nat)

  // -------------------------------------------------------------- the steps

  function NewCall(request: seq<nat>): Call { Call(ProductWrites.Selection(request), 0, map[], false, false) }

  predicate Holds(c: Call, id: nat) { !c.done && c.held <= |c.ids| && id in c.ids[..c.held] }

  predicate Free(s: System, id: nat) { forall t :: 0 <= t < |s.calls| ==> !Holds(s.calls[t], id) }

  /** Call `t` may take its next step: a row lock waits while another call holds it. */
  predicate CanAdvance(s: System, t: nat) {
    && t < |s.calls| && !s.calls[t].done
    && (s.calls[t].held < |s.calls[t].ids| ==> Free(s, s.calls[t].ids[s.calls[t].held]))
  }

  predicate Enabled(s: System, a: Action) {
    match a
    case Advance(t) => CanAdvance(s, t)
    case Fail(t) => t < |s.calls| && !s.calls[t].done
  }

  function Settled(versions: map<nat, nat>, ids: seq<nat>): (after: map<nat, nat>)
    ensures after.Keys == versions.Keys
  {
    map id | id in versions :: if id in ids then versions[id] + 1 else versions[id]
  }

  function Apply(s: System, a: Action): System
    requires Enabled(s, a)
  {
    var c := s.calls[a.t];
    match a
    case Fail(t) => s.(calls := s.calls[t := c.(done := true)])
    case Advance(t) =>
      if c.held >= |c.ids| then System(s.calls[t := c.(done := true, committed := true)], Settled(s.versions, c.ids))
      else
        var id := c.ids[c.held];
        // A row that is gone answers not found, which rolls the call back.
        if id !in s.versions then s.(calls := s.calls[t := c.(done := true)])
        else s.(calls := s.calls[t := c.(held := c.held + 1, seen := c.seen[id := s.versions[id]])])
  }

  ghost predicate IsRun(s: System, actions: seq<Action>)
    decreases |actions|
  {
    actions == [] || (Enabled(s, actions[0]) && IsRun(Apply(s, actions[0]), actions[1..]))
  }

  ghost function After(s: System, actions: seq<Action>): System
    requires IsRun(s, actions)
    decreases |actions|
  {
    if actions == [] then s else After(Apply(s, actions[0]), actions[1..])
  }

  function Start(requests: seq<seq<nat>>, versions: map<nat, nat>): System {
    System(seq(|requests|, t requires 0 <= t < |requests| => NewCall(requests[t])), versions)
  }

  // -------------------------------------------------------------- invariant

  ghost predicate Ascending(ids: seq<nat>) { forall i, j :: 0 <= i < j < |ids| ==> ids[i] < ids[j] }

  ghost predicate CallValid(s: System, c: Call) {
    && c.held <= |c.ids| && Ascending(c.ids)
    && (c.committed ==> c.done)
    && (forall id :: Holds(c, id) ==> id in c.seen && id in s.versions && s.versions[id] == c.seen[id])
  }

  /** No row is locked twice, and what a call read of a row it holds is still what the row says. */
  ghost predicate Inv(s: System) {
    && (forall t {:trigger CallValid(s, s.calls[t])} :: 0 <= t < |s.calls| ==> CallValid(s, s.calls[t]))
    && (forall t, u, id ::
          0 <= t < |s.calls| && 0 <= u < |s.calls| && Holds(s.calls[t], id) && Holds(s.calls[u], id) ==> t == u)
  }

  lemma {:induction false} StartInv(requests: seq<seq<nat>>, versions: map<nat, nat>)
    ensures Inv(Start(requests, versions))
  {
    var s := Start(requests, versions);
    forall t | 0 <= t < |s.calls| ensures CallValid(s, s.calls[t]) {
      ProductWrites.SelectionSorted(requests[t]);
    }
  }

  lemma {:induction false} HeldNext(c: Call, next: Call, id: nat)
    requires c.held < |c.ids| && !c.done && next.ids == c.ids && next.held == c.held + 1 && !next.done
    ensures Holds(next, id) <==> Holds(c, id) || id == c.ids[c.held]
  {
    assert c.ids[..c.held + 1] == c.ids[..c.held] + [c.ids[c.held]];
  }

  lemma {:induction false} StepInv(s: System, a: Action)
    requires Inv(s) && Enabled(s, a)
    ensures Inv(Apply(s, a))
  {
    var c, next := s.calls[a.t], Apply(s, a);
    assert CallValid(s, c);
    if a.Advance? && c.held < |c.ids| && c.ids[c.held] in s.versions {
      forall id { HeldNext(c, next.calls[a.t], id); }
    }
    forall u | 0 <= u < |next.calls| ensures CallValid(next, next.calls[u]) {
      assert CallValid(s, s.calls[u]);
      if a.Advance? && c.held >= |c.ids| && u != a.t { OthersUntouched(s, a.t, u); }
    }
  }

  /** A commit writes only rows its call holds, which no other call has read. */
  lemma {:induction false} OthersUntouched(s: System, t: nat, u: nat)
    requires Inv(s) && t < |s.calls| && u < |s.calls| && t != u && !s.calls[t].done
    requires s.calls[t].held >= |s.calls[t].ids|
    ensures forall id :: Holds(s.calls[u], id) ==> id !in s.calls[t].ids
  {
    var c := s.calls[t];
    assert CallValid(s, c);
    assert c.ids[..c.held] == c.ids;
    assert forall id :: id in c.ids <==> Holds(c, id);
  }

  // ------------------------------------------------------ deadlock freedom

  ghost predicate Unfinished(s: System) { exists t :: 0 <= t < |s.calls| && !s.calls[t].done }

  /** The rows some unfinished call waits for. */
  ghost function Wanted(s: System): set<int> {
    set t | 0 <= t < |s.calls| && !s.calls[t].done && s.calls[t].held < |s.calls[t].ids| ::
        s.calls[t].ids[s.calls[t].held]
  }

  /**
   * However selections overlap, repeat or were ordered: while a call is unfinished, some call can take its
   * next step. The one waiting for the greatest row waits for a call that waits for nothing.
   */
  lemma {:induction false} NeverDeadlocked(s: System) returns (t: nat)
    requires Inv(s) && Unfinished(s)
    ensures CanAdvance(s, t)
  {
    if exists u :: 0 <= u < |s.calls| && !s.calls[u].done && s.calls[u].held >= |s.calls[u].ids| {
      t :| 0 <= t < |s.calls| && !s.calls[t].done && s.calls[t].held >= |s.calls[t].ids|;
    } else {
      var any :| 0 <= any < |s.calls| && !s.calls[any].done;
      assert s.calls[any].ids[s.calls[any].held] in Wanted(s);
      var greatest := MaxOf(Wanted(s));
      t :| 0 <= t < |s.calls| && !s.calls[t].done && s.calls[t].held < |s.calls[t].ids|
           && s.calls[t].ids[s.calls[t].held] == greatest;
      forall u | 0 <= u < |s.calls| ensures !Holds(s.calls[u], greatest) {
        assert CallValid(s, s.calls[u]);
        if !s.calls[u].done {
          var want := s.calls[u].ids[s.calls[u].held];
          assert want in Wanted(s);
          assert want <= greatest;
        }
      }
    }
  }

  // ------------------------------------------------------------ termination

  /** Steps a call can still take: one per row left to lock, and the commit. */
  function Left(c: Call): nat { if c.done then 0 else if c.held <= |c.ids| then |c.ids| - c.held + 1 else 1 }

  function TotalLeft(calls: seq<Call>): nat { if calls == [] then 0 else Left(calls[0]) + TotalLeft(calls[1..]) }

  lemma {:induction false} TotalDrops(calls: seq<Call>, t: nat, c: Call)
    requires t < |calls|
    ensures TotalLeft(calls[t := c]) == TotalLeft(calls) - Left(calls[t]) + Left(c)
  {
    if t == 0 {
      assert calls[0 := c][1..] == calls[1..];
    } else {
      TotalDrops(calls[1..], t - 1, c);
      assert calls[t := c][1..] == calls[1..][t - 1 := c];
    }
  }

  lemma {:induction false} StepShrinks(s: System, a: Action)
    requires Inv(s) && Enabled(s, a)
    ensures TotalLeft(Apply(s, a).calls) < TotalLeft(s.calls)
  {
    assert CallValid(s, s.calls[a.t]);
    TotalDrops(s.calls, a.t, Apply(s, a).calls[a.t]);
  }

  lemma {:induction false} RunInv(s: System, actions: seq<Action>)
    requires Inv(s) && IsRun(s, actions)
    ensures Inv(After(s, actions)) && |After(s, actions).calls| == |s.calls|
    ensures |actions| + TotalLeft(After(s, actions).calls) <= TotalLeft(s.calls)
    decreases |actions|
  {
    if actions != [] {
      StepInv(s, actions[0]);
      StepShrinks(s, actions[0]);
      RunInv(Apply(s, actions[0]), actions[1..]);
    }
  }

  /**
   * From any start, every run is bounded, and one that cannot be continued has finished every call:
   * concurrent bulk changes never block each other for good.
   */
  lemma {:induction false} AllFinish(requests: seq<seq<nat>>, versions: map<nat, nat>, actions: seq<Action>)
    requires IsRun(Start(requests, versions), actions)
    ensures var s := Start(requests, versions);
            && |actions| <= TotalLeft(s.calls)
            && ((forall t :: !CanAdvance(After(s, actions), t)) ==> !Unfinished(After(s, actions)))
  {
    var s := Start(requests, versions);
    StartInv(requests, versions);
    RunInv(s, actions);
    var end := After(s, actions);
    if Unfinished(end) { var t := NeverDeadlocked(end); }
  }

  // ------------------------------------------------------ one bump each

  /** How many committed calls selected the row. */
  function Bumps(calls: seq<Call>, id: nat): nat {
    if calls == [] then 0 else (if calls[0].committed && id in calls[0].ids then 1 else 0) + Bumps(calls[1..], id)
  }

  lemma {:induction false} BumpsChange(calls: seq<Call>, t: nat, c: Call, id: nat)
    requires t < |calls|
    ensures Bumps(calls[t := c], id) - (if c.committed && id in c.ids then 1 else 0)
         == Bumps(calls, id) - (if calls[t].committed && id in calls[t].ids then 1 else 0)
  {
    if t == 0 {
      assert calls[0 := c][1..] == calls[1..];
    } else {
      BumpsChange(calls[1..], t - 1, c, id);
      assert calls[t := c][1..] == calls[1..][t - 1 := c];
    }
  }

  /** Every row's version counts the committed calls that selected it: one bump a call, however often it was listed. */
  lemma {:induction false} VersionsCount(s: System, actions: seq<Action>, id: nat)
    requires Inv(s) && IsRun(s, actions) && id in s.versions
    ensures id in After(s, actions).versions
    ensures After(s, actions).versions[id] - Bumps(After(s, actions).calls, id) == s.versions[id] - Bumps(s.calls, id)
    decreases |actions|
  {
    if actions != [] {
      var a := actions[0];
      var next := Apply(s, a);
      StepInv(s, a);
      assert CallValid(s, s.calls[a.t]);
      BumpsChange(s.calls, a.t, next.calls[a.t], id);
      VersionsCount(next, actions[1..], id);
    }
  }

  // ------------------------------------------------------ without the order

  /** Taken in request order the same locks can deadlock: two calls each holding the row the other wants. */
  lemma {:induction false} UnsortedDeadlocks()
    ensures var s := System([Call([1, 2], 0, map[], false, false), Call([2, 1], 0, map[], false, false)],
                            map[1 := 0, 2 := 0]);
            var actions := [Advance(0), Advance(1)];
            IsRun(s, actions) && Unfinished(After(s, actions)) && forall t :: !CanAdvance(After(s, actions), t)
  {
    var first, second := Call([1, 2], 0, map[], false, false), Call([2, 1], 0, map[], false, false);
    var s := System([first, second], map[1 := 0, 2 := 0]);
    var actions := [Advance(0), Advance(1)];
    var s1 := Apply(s, actions[0]);
    assert s1 == System([first.(held := 1, seen := map[1 := 0]), second], s.versions);
    assert !Holds(s1.calls[0], 2) && !Holds(s1.calls[1], 2);
    assert actions[1..] == [Advance(1)];
    assert CanAdvance(s1, 1);
    var s2 := Apply(s1, Advance(1));
    assert s2.calls == [first.(held := 1, seen := map[1 := 0]), second.(held := 1, seen := map[2 := 0])];
    assert actions[1..][1..] == [];
    var rest := actions[1..];
    assert rest[0] == Advance(1) && rest[1..] == [];
    assert IsRun(s2, rest[1..]) && After(s2, rest[1..]) == s2;
    assert IsRun(s1, rest) && After(s1, rest) == s2;
    assert Holds(s2.calls[0], 1) by { assert first.ids[..1] == [1]; }
    assert Holds(s2.calls[1], 2) by { assert second.ids[..1] == [2]; }
    assert !s2.calls[0].done;
  }
}
