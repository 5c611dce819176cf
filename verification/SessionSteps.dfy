/**
 * Refreshes whose statements interleave: each call reads the clock and the row, then writes what it decided
 * from them, then mints; other calls, logouts and sweeps may run between.
 */
module SessionSteps {
  import opened Prelude
  import opened Sessions

  /** A refresh under way; `decided` is when its second statement ran, `accepted` whether it goes on to mint. */
  datatype Call =
    | Waiting
    | HasRead(app: App, token: nat, read: int, found: Option<Row>)
    | Decided(app: App, token: nat, read: int, decided: int, accepted: bool, user: nat)
    | Finished(app: App, token: nat, read: int, decided: int, accepted: bool)

  datatype System = System(table: State, calls: seq<Call>)

  datatype Action =
    | Begin(at: int, call: nat, app: App, token: nat)
    | Decide(at: int, call: nat, owned: bool)
    | Finish(at: int, call: nat)
    | Other(op: Op)

  function TimeOf(a: Action): int { if a.Other? then a.op.at else a.at }

  /** What the rows read say of a presentation at the clock reading. */
  function Judged(c: Call, owned: bool): Outcome
    requires c.HasRead?
  {
    if c.found.None? || c.found.value.app != c.app then Unknown
    else
      var row := c.found.value;
      if row.expiresAt <= c.read then Expired
      else if row.revokedAt.Some? && c.read - row.revokedAt.value > REUSE_GRACE_MS then Reused
      else if !owned then Unknown
      else Accepted(0)
  }

  /** The second statement, on the rows as they are now, with the reading of the first. */
  function Written(s: State, c: Call): State
    requires c.HasRead?
  {
    if c.found.None? || c.found.value.app != c.app then s
    else
      var row := c.found.value;
      if row.expiresAt <= c.read then
        if c.token in s.rows
        then s.(rows := s.rows[c.token := s.rows[c.token].(revokedAt := Some(c.read), expiresAt := c.read)]) else s
      else if row.revokedAt.Some? then
        if c.read - row.revokedAt.value > REUSE_GRACE_MS
        then s.(rows := RevokeWhere(s.rows, row.user, Some(c.app), c.read)) else s
      // Only if nobody revoked it meanwhile.
      else if c.token in s.rows && s.rows[c.token].revokedAt.None? then
        s.(rows := s.rows[c.token := s.rows[c.token].(revokedAt := Some(c.read))])
      else s
  }

  /** One action; one that does not fit the call's progress changes nothing. */
  function Act(s: System, ttl: nat, a: Action): (after: System)
    ensures |after.calls| == |s.calls|
  {
    match a
    case Other(op) => if op.RefreshOp? then s else s.(table := Step(s.table, ttl, op))
    case Begin(at, k, app, token) =>
      if k < |s.calls| && s.calls[k].Waiting? then
        s.(calls := s.calls[k := HasRead(app, token, at, if token in s.table.rows then Some(s.table.rows[token])
            else None)])
      else s
    case Decide(at, k, owned) =>
      if k < |s.calls| && s.calls[k].HasRead? then
        var c := s.calls[k];
        System(Written(s.table, c),
               s.calls[k := Decided(c.app, c.token, c.read, at, Judged(c, owned).Accepted?, if c.found.Some?
                   then c.found.value.user else 0)])
      else s
    case Finish(at, k) =>
      if k < |s.calls| && s.calls[k].Decided? then
        var c := s.calls[k];
        System(if c.accepted then Mint(s.table, ttl, c.user, c.app, at) else s.table,
               s.calls[k := Finished(c.app, c.token, c.read, c.decided, c.accepted)])
      else s
  }

  function Execute(s: System, ttl: nat, actions: seq<Action>): (after: System)
    ensures |after.calls| == |s.calls|
    decreases |actions|
  {
    if actions == [] then s else Execute(Act(s, ttl, actions[0]), ttl, actions[1..])
  }

  ghost predicate Timed(actions: seq<Action>, now: int) {
    && (forall i :: 0 <= i < |actions| ==> now <= TimeOf(actions[i]))
    && (forall i, j :: 0 <= i < j < |actions| ==> TimeOf(actions[i]) <= TimeOf(actions[j]))
  }

  // -------------------------------------------------------------- invariant

  predicate IsAccepted(c: Call) { (c.Decided? || c.Finished?) && c.accepted }

  /** A row read that shows the token spent since `first`, or over at the reading. */
  predicate RowSpent(row: Option<Row>, first: int, read: int) {
    row.None? || (row.value.revokedAt.Some? && row.value.revokedAt.value <= first) || row.value.expiresAt <= read
  }

  ghost predicate CallSound(s: System, now: int, c: Call) {
    && (c.HasRead? ==> c.read <= now
                       && (c.found.Some? ==> c.token < s.table.next
                                             && (c.found.value.revokedAt.Some? ==>
                                                     Spent(s.table, c.token, c.read, now)))
                       && (c.found.Some? && c.found.value.expiresAt <= c.read ==> Over(s.table, c.token, now)))
    && ((c.Decided? || c.Finished?) ==> c.read <= c.decided <= now)
    && (IsAccepted(c) ==> Spent(s.table, c.token, c.decided, now))
  }

  /** What an accepted call means for another call of the same token. */
  ghost predicate Bound(c: Call, d: Call) {
    IsAccepted(c) && (d.HasRead? || IsAccepted(d)) && c.token == d.token ==>
      d.read <= c.decided || (if d.HasRead? then RowSpent(d.found, c.decided, d.read)
          else d.read - c.decided <= REUSE_GRACE_MS)
  }

  ghost predicate Inv(s: System, now: int) {
    && Drawn(s.table) && PastOnly(s.table, now)
    && (forall k {:trigger CallSound(s, now, s.calls[k])} :: 0 <= k < |s.calls| ==> CallSound(s, now, s.calls[k]))
    && (forall k, l {:trigger Bound(s.calls[k], s.calls[l])} :: 0 <= k < |s.calls| && 0 <= l < |s.calls| && k != l ==>
                                                                    Bound(s.calls[k], s.calls[l]))
  }

  // ------------------------------------------------------------ what is kept

  /** Whatever is written later, a spent token stays spent and an over one stays over. */
  ghost predicate Later(s: State, after: State, now: int, at: int) {
    && s.next <= after.next && now <= at
    && (forall t, first :: Spent(s, t, first, now) ==> Spent(after, t, first, at))
    && (forall t :: Over(s, t, now) ==> Over(after, t, at))
  }

  lemma {:induction false} OtherLater(s: State, ttl: nat, op: Op, now: int)
    requires Drawn(s) && now <= op.at && !op.RefreshOp?
    ensures Later(s, Step(s, ttl, op), now, op.at)
  {
    forall t, first | Spent(s, t, first, now) ensures Spent(Step(s, ttl, op), t, first, op.at) {
      StepKeepsSpent(s, ttl, op, t, first, now);
    }
    forall t | Over(s, t, now) ensures Over(Step(s, ttl, op), t, op.at) { StepKeepsOver(s, ttl, op, t, now); }
  }

  lemma {:induction false} WrittenLater(s: State, c: Call, now: int, at: int)
    requires c.HasRead? && c.read <= now <= at
    requires c.found.Some? && c.found.value.expiresAt <= c.read ==> Over(s, c.token, now)
    ensures Later(s, Written(s, c), now, at)
  {
  }

  lemma {:induction false} MintLater(s: State, ttl: nat, user: nat, app: App, now: int, at: int)
    requires now <= at && Drawn(s)
    ensures Later(s, Mint(s, ttl, user, app, at), now, at)
  {
  }

  lemma {:induction false} WrittenSound(s: State, c: Call, now: int, at: int)
    requires Drawn(s) && PastOnly(s, now) && c.HasRead? && c.read <= now <= at
    ensures Drawn(Written(s, c)) && PastOnly(Written(s, c), at)
  {
  }

  /** After its second statement an accepted call's token is spent. */
  lemma {:induction false} AcceptedIsSpent(s: System, c: Call, owned: bool, now: int, at: int)
    requires c.HasRead? && CallSound(s, now, c) && now <= at && PastOnly(s.table, now) && Judged(c, owned).Accepted?
    ensures Spent(Written(s.table, c), c.token, at, at)
  {
  }

  lemma {:induction false} CallStaysSound(s: System, after: System, now: int, at: int, c: Call)
    requires CallSound(s, now, c) && Later(s.table, after.table, now, at)
    ensures CallSound(after, at, c)
  {
  }

  /** What a call read bounds it still when it is accepted on that reading. */
  lemma {:induction false} AcceptedBound(c: Call, d: Call, owned: bool, at: int, user: nat)
    requires d.HasRead? && Bound(c, d) && Judged(d, owned).Accepted?
    ensures Bound(c, Decided(d.app, d.token, d.read, at, true, user))
  {
  }

  lemma {:induction false} BeginKeeps(s: System, ttl: nat, now: int, at: int, k: nat, app: App, token: nat)
    requires Inv(s, now) && now <= at && k < |s.calls| && s.calls[k].Waiting?
    ensures Inv(Act(s, ttl, Begin(at, k, app, token)), at)
  {
    var after := Act(s, ttl, Begin(at, k, app, token));
    forall l | 0 <= l < |after.calls| ensures CallSound(after, at, after.calls[l]) {
      assert CallSound(s, now, s.calls[l]);
      if l != k { CallStaysSound(s, after, now, at, s.calls[l]); }
    }
    forall x, y | 0 <= x < |after.calls| && 0 <= y < |after.calls| && x != y
      ensures Bound(after.calls[x], after.calls[y]) {
      assert Bound(s.calls[x], s.calls[y]) && CallSound(s, now, s.calls[x]);
    }
  }

  lemma {:induction false} DecideKeeps(s: System, ttl: nat, now: int, at: int, k: nat, owned: bool)
    requires Inv(s, now) && now <= at && k < |s.calls| && s.calls[k].HasRead?
    ensures Inv(Act(s, ttl, Decide(at, k, owned)), at)
  {
    var after, c := Act(s, ttl, Decide(at, k, owned)), s.calls[k];
    assert CallSound(s, now, c);
    WrittenLater(s.table, c, now, at);
    WrittenSound(s.table, c, now, at);
    if Judged(c, owned).Accepted? { AcceptedIsSpent(s, c, owned, now, at); }
    forall l | 0 <= l < |after.calls| ensures CallSound(after, at, after.calls[l]) {
      assert CallSound(s, now, s.calls[l]);
      if l != k { CallStaysSound(s, after, now, at, s.calls[l]); }
    }
    forall x, y | 0 <= x < |after.calls| && 0 <= y < |after.calls| && x != y
      ensures Bound(after.calls[x], after.calls[y]) {
      assert Bound(s.calls[x], s.calls[y]) && CallSound(s, now, s.calls[y]);
      if y == k && Judged(c, owned).Accepted? { AcceptedBound(s.calls[x], c, owned, at, after.calls[k].user); }
    }
  }

  lemma {:induction false} FinishKeeps(s: System, ttl: nat, now: int, at: int, k: nat)
    requires Inv(s, now) && now <= at && k < |s.calls| && s.calls[k].Decided?
    ensures Inv(Act(s, ttl, Finish(at, k)), at)
  {
    var after, c := Act(s, ttl, Finish(at, k)), s.calls[k];
    MintLater(s.table, ttl, c.user, c.app, now, at);
    forall l | 0 <= l < |after.calls| ensures CallSound(after, at, after.calls[l]) {
      assert CallSound(s, now, s.calls[l]);
      CallStaysSound(s, after, now, at, s.calls[l]);
    }
    forall x, y | 0 <= x < |after.calls| && 0 <= y < |after.calls| && x != y
      ensures Bound(after.calls[x], after.calls[y]) {
      assert Bound(s.calls[x], s.calls[y]);
    }
  }

  lemma {:induction false} OtherKeeps(s: System, ttl: nat, now: int, op: Op)
    requires Inv(s, now) && now <= op.at && !op.RefreshOp?
    ensures Inv(Act(s, ttl, Other(op)), op.at)
  {
    var after := Act(s, ttl, Other(op));
    OtherLater(s.table, ttl, op, now);
    StepKeepsSound(s.table, ttl, op, now);
    forall l | 0 <= l < |after.calls| ensures CallSound(after, op.at, after.calls[l]) {
      assert CallSound(s, now, s.calls[l]);
      CallStaysSound(s, after, now, op.at, s.calls[l]);
    }
    forall x, y | 0 <= x < |after.calls| && 0 <= y < |after.calls| && x != y
      ensures Bound(after.calls[x], after.calls[y]) {
      assert Bound(s.calls[x], s.calls[y]);
    }
  }

  lemma {:induction false} InvLater(s: System, now: int, at: int)
    requires Inv(s, now) && now <= at
    ensures Inv(s, at)
  {
    forall l | 0 <= l < |s.calls| ensures CallSound(s, at, s.calls[l]) {
      assert CallSound(s, now, s.calls[l]);
      CallStaysSound(s, s, now, at, s.calls[l]);
    }
  }

  lemma {:induction false} ActKeeps(s: System, ttl: nat, a: Action, now: int)
    requires Inv(s, now) && now <= TimeOf(a)
    ensures Inv(Act(s, ttl, a), TimeOf(a))
  {
    InvLater(s, now, TimeOf(a));
    match a
    case Other(op) => if !op.RefreshOp? { OtherKeeps(s, ttl, now, op); }
    case Begin(at, k, app, token) => if k < |s.calls| && s.calls[k].Waiting? {
      BeginKeeps(s, ttl, now, at, k, app, token);
    }
    case Decide(at, k, owned) => if k < |s.calls| && s.calls[k].HasRead? { DecideKeeps(s, ttl, now, at, k, owned); }
    case Finish(at, k) => if k < |s.calls| && s.calls[k].Decided? { FinishKeeps(s, ttl, now, at, k); }
  }

  lemma {:induction false} ExecuteKeeps(s: System, ttl: nat, actions: seq<Action>, now: int) returns (end: int)
    requires Inv(s, now) && Timed(actions, now)
    ensures now <= end && Inv(Execute(s, ttl, actions), end)
    decreases |actions|
  {
    if actions == [] {
      end := now;
    } else {
      ActKeeps(s, ttl, actions[0], now);
      end := ExecuteKeeps(Act(s, ttl, actions[0]), ttl, actions[1..], TimeOf(actions[0]));
    }
  }

  ghost predicate Quiet(s: System, now: int) {
    Drawn(s.table) && PastOnly(s.table, now) && forall k :: 0 <= k < |s.calls| ==> s.calls[k].Waiting?
  }

  /**
   * However the statements of refreshes, logouts and sweeps interleave: two accepted refreshes of one token
   * read the clock at most the grace window apart, plus the time the earlier one took from its reading to its
   * second statement. With statements that follow at once this is the window itself.
   */
  lemma {:induction false} InterleavedWithinGrace(s: System, ttl: nat, actions: seq<Action>, now: int, k: nat, l: nat,
                                                  slack: int)
    requires Quiet(s, now) && Timed(actions, now) && k < |s.calls| && l < |s.calls| && k != l
    requires var c, d := Execute(s, ttl, actions).calls[k], Execute(s, ttl, actions).calls[l];
             IsAccepted(c) && IsAccepted(d) && c.token == d.token && c.decided - c.read <= slack
    ensures Execute(s, ttl, actions).calls[l].read - Execute(s, ttl, actions).calls[k].read <= REUSE_GRACE_MS + slack
  {
    var end := ExecuteKeeps(s, ttl, actions, now);
    var after := Execute(s, ttl, actions);
    assert Bound(after.calls[k], after.calls[l]);
    assert CallSound(after, end, after.calls[k]);
  }

  // ------------------------------------------- the statements and the whole

  /**
   * A refresh whose statements follow one another is the refresh of `Sessions`: the same rows, and accepted, expired or
   * refused alike.
   */
  lemma {:induction false} StatementsAreRefresh(s: System, ttl: nat, k: nat, app: App, token: nat, at: int, owned: bool,
                                                mintAt: int)
    requires k < |s.calls| && s.calls[k].Waiting?
    ensures var begun := Act(s, ttl, Begin(at, k, app, token));
            var decided := Act(begun, ttl, Decide(at, k, owned));
            && Act(decided, ttl, Finish(mintAt, k)).table == Refresh(s.table, ttl, app, token, at, owned, mintAt)
            && begun.calls[k].HasRead? && decided.calls[k].Decided?
            && (decided.calls[k].accepted <==> Verdict(s.table, app, token, at, owned).Accepted?)
            && (Judged(begun.calls[k], owned).Accepted? <==> Verdict(s.table, app, token, at, owned).Accepted?)
            && (!Judged(begun.calls[k], owned).Accepted? ==>
                  Judged(begun.calls[k], owned) == Verdict(s.table, app, token, at, owned))
  {
    var begun := Act(s, ttl, Begin(at, k, app, token));
    var decided := Act(begun, ttl, Decide(at, k, owned));
    var whole := Refresh(s.table, ttl, app, token, at, owned, mintAt);
    assert Act(decided, ttl, Finish(mintAt, k)).table.rows == whole.rows;
  }

  // --------------------------------------------------- after a session ended

  lemma {:induction false} ActLater(s: System, ttl: nat, a: Action, now: int)
    requires Inv(s, now) && now <= TimeOf(a)
    ensures Later(s.table, Act(s, ttl, a).table, now, TimeOf(a))
  {
    match a
    case Other(op) => if !op.RefreshOp? { OtherLater(s.table, ttl, op, now); }
    case Begin(_, _, _, _) =>
    case Decide(at, k, _) =>
      if k < |s.calls| && s.calls[k].HasRead? {
        assert CallSound(s, now, s.calls[k]);
        WrittenLater(s.table, s.calls[k], now, at);
      }
    case Finish(at, k) => if k < |s.calls| && s.calls[k].Decided? {
      MintLater(s.table, ttl, s.calls[k].user, s.calls[k].app, now, at);
    }
  }

  /** The call has been accepted on the token, or has read a row on which it would be. */
  ghost predicate OnItsWay(c: Call, token: nat) {
    (IsAccepted(c) && c.token == token) || (c.HasRead? && c.token == token && Judged(c, true).Accepted?)
  }

  lemma {:induction false} LateStays(s: System, ttl: nat, a: Action, now: int, k: nat, token: nat)
    requires Inv(s, now) && now <= TimeOf(a) && k < |s.calls| && Over(s.table, token, now)
    requires !OnItsWay(s.calls[k], token)
    ensures !OnItsWay(Act(s, ttl, a).calls[k], token)
  {
  }

  /**
   * Once a token is over, whatever runs: the calls that are accepted on it are among those that were accepted
   * already or had read its row while it was good.
   */
  lemma {:induction false} OnlyEarlyReaders(s: System, ttl: nat, actions: seq<Action>, now: int, k: nat, token: nat)
    requires Inv(s, now) && Timed(actions, now) && k < |s.calls| && Over(s.table, token, now)
    requires OnItsWay(Execute(s, ttl, actions).calls[k], token)
    ensures OnItsWay(s.calls[k], token)
    decreases |actions|
  {
    if actions != [] {
      var next, at := Act(s, ttl, actions[0]), TimeOf(actions[0]);
      ActKeeps(s, ttl, actions[0], now);
      ActLater(s, ttl, actions[0], now);
      OnlyEarlyReaders(next, ttl, actions[1..], at, k, token);
      if !OnItsWay(s.calls[k], token) { LateStays(s, ttl, actions[0], now, k, token); }
    }
  }

  /** A refresh that begins once a row is over is not accepted, whatever runs before and between its statements. */
  lemma {:induction false} BeginsTooLate(s: System, ttl: nat, actions: seq<Action>, now: int, k: nat, token: nat)
    requires Inv(s, now) && Timed(actions, now) && k < |s.calls| && s.calls[k].Waiting? && Over(s.table, token, now)
    ensures var c := Execute(s, ttl, actions).calls[k]; IsAccepted(c) ==> c.token != token
  {
    if OnItsWay(Execute(s, ttl, actions).calls[k], token) { OnlyEarlyReaders(s, ttl, actions, now, k, token); }
  }

  ghost predicate LeavesAlone(actions: seq<Action>, k: nat) {
    forall i :: 0 <= i < |actions| ==> !(actions[i].Decide? && actions[i].call == k)
  }

  lemma {:induction false} ReadingStays(s: System, ttl: nat, actions: seq<Action>, k: nat)
    requires k < |s.calls| && s.calls[k].HasRead? && LeavesAlone(actions, k)
    ensures Execute(s, ttl, actions).calls[k] == s.calls[k]
    decreases |actions|
  {
    if actions != [] { ReadingStays(Act(s, ttl, actions[0]), ttl, actions[1..], k); }
  }

  /**
   * And each of those is accepted: whatever runs after a reading, endings of its session included, the call is judged
   * by the reading, and if it is accepted its last statement adds one row, unrevoked, with a full lifetime, and no
   * more.
   */
  lemma {:induction false} EarlyReaderMints(s: System, ttl: nat, actions: seq<Action>, k: nat, owned: bool, at: int,
                                            mintAt: int)
    requires k < |s.calls| && s.calls[k].HasRead? && LeavesAlone(actions, k)
    ensures var c := s.calls[k];
            var decided := Act(Execute(s, ttl, actions), ttl, Decide(at, k, owned));
            var minted := Act(decided, ttl, Finish(mintAt, k)).table;
            && (IsAccepted(decided.calls[k]) <==> Judged(c, owned).Accepted?)
            && (Judged(c, owned).Accepted? ==>
                  minted.rows == decided.table.rows[decided.table.next := Row(c.found.value.user, c.app, mintAt + ttl,
                                                                              None)])
            && (!Judged(c, owned).Accepted? ==> minted == decided.table)
  {
    ReadingStays(s, ttl, actions, k);
  }

  /** A refresh that read its row before a logout leaves the user an unrevoked session after it. */
  lemma {:induction false} LogoutOvertaken(s: System, ttl: nat, k: nat, app: App, token: nat, at: int)
    requires k < |s.calls| && s.calls[k].Waiting? && Drawn(s.table)
    requires token in s.table.rows
    requires s.table.rows[token] == Row(s.table.rows[token].user, app, s.table.rows[token].expiresAt, None)
    requires s.table.rows[token].expiresAt > at
    ensures var user := s.table.rows[token].user;
            var ended := Execute(s, ttl, [Begin(at, k, app, token), Other(LogoutOp(at, app, Some(token)))]);
            var end := Execute(ended, ttl, [Decide(at, k, true), Finish(at, k)]).table;
            && (forall t :: t in ended.table.rows && ended.table.rows[t].user == user
                            && ended.table.rows[t].app == app ==>
                  ended.table.rows[t].revokedAt.Some?)
            && exists t :: t in end.rows && end.rows[t] == Row(user, app, at + ttl, None)
  {
    var begun := Act(s, ttl, Begin(at, k, app, token));
    var ended := Act(begun, ttl, Other(LogoutOp(at, app, Some(token))));
    TwoActions(s, ttl, Begin(at, k, app, token), Other(LogoutOp(at, app, Some(token))));
    TwoActions(ended, ttl, Decide(at, k, true), Finish(at, k));
    EarlyReaderMints(begun, ttl, [Other(LogoutOp(at, app, Some(token)))], k, true, at, at);
    assert ended == Execute(begun, ttl, [Other(LogoutOp(at, app, Some(token)))]) by {
      OneAction(begun, ttl, Other(LogoutOp(at, app, Some(token))));
    }
    var decided := Act(ended, ttl, Decide(at, k, true));
    assert decided.table.next in Act(decided, ttl, Finish(at, k)).table.rows;
  }

  lemma {:induction false} OneAction(s: System, ttl: nat, a: Action)
    ensures Execute(s, ttl, [a]) == Act(s, ttl, a)
  {
    assert [a][1..] == [];
  }

  lemma {:induction false} TwoActions(s: System, ttl: nat, a: Action, b: Action)
    ensures Execute(s, ttl, [a, b]) == Act(Act(s, ttl, a), ttl, b)
  {
    assert [a, b][1..] == [b];
    OneAction(Act(s, ttl, a), ttl, b);
  }

  // -------------------------------------------- what outlives an ending here

  /** A call that goes on to mint for them, or has read a row of theirs on which it would. */
  predicate UnderWay(c: Call, user: nat, app: App) {
    || (c.Decided? && c.accepted && c.user == user && c.app == app)
    || (c.HasRead? && c.app == app && Judged(c, true).Accepted? && c.found.value.user == user)
  }

  /** They have no row that may be presented, and no call under way. */
  ghost predicate Still(s: System, user: nat, app: App, now: int) {
    Closed(s.table, user, app, now) && forall k :: 0 <= k < |s.calls| ==> !UnderWay(s.calls[k], user, app)
  }

  predicate LogsIn(a: Action, user: nat, app: App) { a.Other? && Issues(a.op, user, app) }

  /** Every row of theirs is one they had before. */
  ghost predicate NoneNew(s: State, after: State, user: nat, app: App) {
    forall t :: t in after.rows && Belongs(after.rows[t], user, app) ==> t in s.rows && Belongs(s.rows[t], user, app)
  }

  lemma {:induction false} WrittenStill(s: State, c: Call, user: nat, app: App, now: int, at: int)
    requires Closed(s, user, app, now) && c.HasRead? && c.read <= now <= at
    ensures Closed(Written(s, c), user, app, at) && NoneNew(s, Written(s, c), user, app)
  {
  }

  lemma {:induction false} OtherStill(s: State, ttl: nat, op: Op, user: nat, app: App, now: int)
    requires Closed(s, user, app, now) && now <= op.at && !op.RefreshOp? && !Issues(op, user, app)
    ensures Closed(Step(s, ttl, op), user, app, op.at) && NoneNew(s, Step(s, ttl, op), user, app)
  {
    StepKeepsClosed(s, ttl, op, user, app, now);
  }

  lemma {:induction false} ActKeepsStill(s: System, ttl: nat, a: Action, user: nat, app: App, now: int)
    requires Inv(s, now) && now <= TimeOf(a) && Still(s, user, app, now) && !LogsIn(a, user, app)
    ensures Still(Act(s, ttl, a), user, app, TimeOf(a)) && NoneNew(s.table, Act(s, ttl, a).table, user, app)
  {
    match a
    case Other(op) => if !op.RefreshOp? { OtherStill(s.table, ttl, op, user, app, now); }
    case Begin(_, _, _, _) =>
    case Decide(at, k, _) =>
      if k < |s.calls| && s.calls[k].HasRead? {
        assert CallSound(s, now, s.calls[k]);
        WrittenStill(s.table, s.calls[k], user, app, now, at);
      }
    case Finish(at, k) =>
      if k < |s.calls| && s.calls[k].Decided? { assert !UnderWay(s.calls[k], user, app); }
  }

  ghost predicate NoLogin(actions: seq<Action>, user: nat, app: App) {
    forall i :: 0 <= i < |actions| ==> !LogsIn(actions[i], user, app)
  }

  /** However things interleave from here on: no row is minted for them until they log in again. */
  ghost predicate Silent(s: System, ttl: nat, user: nat, app: App, now: int) {
    forall actions | Timed(actions, now) && NoLogin(actions, user, app) ::
      NoneNew(s.table, Execute(s, ttl, actions).table, user, app)
  }

  lemma {:induction false} StillRun(s: System, ttl: nat, actions: seq<Action>, user: nat, app: App, now: int)
    requires Inv(s, now) && Still(s, user, app, now) && Timed(actions, now) && NoLogin(actions, user, app)
    ensures NoneNew(s.table, Execute(s, ttl, actions).table, user, app)
    decreases |actions|
  {
    if actions != [] {
      ActKeeps(s, ttl, actions[0], now);
      ActKeepsStill(s, ttl, actions[0], user, app, now);
      StillRun(Act(s, ttl, actions[0]), ttl, actions[1..], user, app, TimeOf(actions[0]));
    }
  }

  /** A call under way mints, and so does a waiting one that is given a row that may be presented. */
  lemma {:induction false} NotStillMints(s: System, ttl: nat, user: nat, app: App, now: int, k: nat)
    returns (actions: seq<Action>)
    requires Drawn(s.table) && !Still(s, user, app, now) && k < |s.calls| && s.calls[k].Waiting?
    ensures Timed(actions, now) && NoLogin(actions, user, app)
    ensures !NoneNew(s.table, Execute(s, ttl, actions).table, user, app)
  {
    if j :| 0 <= j < |s.calls| && UnderWay(s.calls[j], user, app) {
      if s.calls[j].Decided? {
        actions := [Finish(now, j)];
        OneAction(s, ttl, actions[0]);
        assert s.table.next in Execute(s, ttl, actions).table.rows;
      } else {
        actions := ReaderMints(s, ttl, now, j);
      }
    } else {
      var t :| t in s.table.rows && Belongs(s.table.rows[t], user, app) && Good(s.table.rows[t], now);
      var begun := Act(s, ttl, Begin(now, k, app, t));
      var rest := ReaderMints(begun, ttl, now, k);
      actions := [Begin(now, k, app, t)] + rest;
      assert actions[1..] == rest;
    }
  }

  lemma {:induction false} ReaderMints(s: System, ttl: nat, now: int, k: nat) returns (actions: seq<Action>)
    requires Drawn(s.table) && k < |s.calls| && s.calls[k].HasRead? && Judged(s.calls[k], true).Accepted?
    ensures Timed(actions, now) && forall i :: 0 <= i < |actions| ==> !actions[i].Other?
    ensures !NoneNew(s.table, Execute(s, ttl, actions).table, s.calls[k].found.value.user, s.calls[k].app)
  {
    actions := [Decide(now, k, true), Finish(now, k)];
    TwoActions(s, ttl, actions[0], actions[1]);
    assert Execute(s, ttl, []) == s;
    EarlyReaderMints(s, ttl, [], k, true, now, now);
    assert s.table.next in Execute(s, ttl, actions).table.rows;
  }

  lemma {:induction false} SilentIff(s: System, ttl: nat, user: nat, app: App, now: int, k: nat)
    requires Inv(s, now) && k < |s.calls| && s.calls[k].Waiting?
    ensures Silent(s, ttl, user, app, now) <==> Still(s, user, app, now)
  {
    if Still(s, user, app, now) {
      forall actions | Timed(actions, now) && NoLogin(actions, user, app)
        ensures NoneNew(s.table, Execute(s, ttl, actions).table, user, app)
      {
        StillRun(s, ttl, actions, user, app, now);
      }
    } else {
      var actions := NotStillMints(s, ttl, user, app, now, k);
    }
  }

  /** The action ends the sessions of the user in that app: a logout, or the second statement of a reuse verdict. */
  ghost predicate EndsNow(s: System, a: Action, user: nat, app: App) {
    match a
    case Other(op) => !op.RefreshOp? && Ends(s.table, op, user, app)
    case Decide(_, k, owned) =>
      && k < |s.calls| && s.calls[k].HasRead? && Judged(s.calls[k], owned) == Reused
      && Belongs(s.calls[k].found.value, user, app)
    case _ => false
  }

  lemma {:induction false} StillAtEnding(s: System, ttl: nat, a: Action, user: nat, app: App, now: int)
    requires Inv(s, now) && now <= TimeOf(a) && EndsNow(s, a, user, app)
    ensures Closed(Act(s, ttl, a).table, user, app, TimeOf(a)) <==> !RotatedLately(s.table, user, app, TimeOf(a))
  {
    match a
    case Other(op) => ClosedAtEnding(s.table, ttl, op, user, app);
    case Decide(at, k, owned) =>
      var c, rows := s.calls[k], s.table.rows;
      assert CallSound(s, now, c);
      var after := RevokeWhere(rows, user, Some(app), c.read);
      assert Act(s, ttl, a).table.rows == after;
      if t :| t in rows && Belongs(rows[t], user, app) && rows[t].revokedAt.Some? && Good(rows[t], at) {
        assert after[t] == rows[t];
      }
      if t :| t in after && Belongs(after[t], user, app) && Good(after[t], at) {
        assert t in rows && Belongs(rows[t], user, app);
      }
  }

  /**
   * With statements interleaved, an ending keeps the user out of the app until the next login exactly when, as it
   * runs, none of their rows there was rotated within the window before and no call of theirs is under way.
   */
  lemma {:induction false} EndingSilencesIff(s: System, ttl: nat, a: Action, user: nat, app: App, now: int, k: nat)
    requires Inv(s, now) && now <= TimeOf(a) && EndsNow(s, a, user, app) && k < |s.calls| && s.calls[k].Waiting?
    ensures Silent(Act(s, ttl, a), ttl, user, app, TimeOf(a))
       <==> && !RotatedLately(s.table, user, app, TimeOf(a))
            && forall j :: 0 <= j < |s.calls| ==> !UnderWay(s.calls[j], user, app)
  {
    var after := Act(s, ttl, a);
    ActKeeps(s, ttl, a, now);
    SilentIff(after, ttl, user, app, TimeOf(a), k);
    StillAtEnding(s, ttl, a, user, app, now);
    forall j | 0 <= j < |s.calls| ensures UnderWay(after.calls[j], user, app) <==> UnderWay(s.calls[j], user, app) { }
  }

  /**
   * The first revocation of a token that is not over stands: no interleaved statement moves the start of its window.
   */
  lemma {:induction false} FirstRevocationStands(s: System, ttl: nat, a: Action, now: int, token: nat)
    requires Inv(s, now) && now <= TimeOf(a)
    requires token in s.table.rows && s.table.rows[token].revokedAt.Some? && s.table.rows[token].expiresAt > TimeOf(a)
    ensures token in Act(s, ttl, a).table.rows
    ensures Act(s, ttl, a).table.rows[token].revokedAt == s.table.rows[token].revokedAt
  {
    if a.Decide? && a.call < |s.calls| { assert CallSound(s, now, s.calls[a.call]); }
  }
}
