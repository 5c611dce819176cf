/** Refresh-token rotation with a grace window, replay detection and per-app isolation, over whole timed runs. */
module Sessions {
  import opened Prelude

  datatype App = Shop | Seller | Admin

  /** A stored refresh token; times are in milliseconds. */
  datatype Row = Row(user: nat, app: App, expiresAt: int, revokedAt: Option<int>)

  /** The table, keyed by token, and the supply of tokens: random in the program, here never drawn twice. */
  datatype State = State(rows: map<nat, Row>, next: nat)

  datatype Outcome = Accepted(token: nat) | Unknown | Expired | Reused

  const REUSE_GRACE_MS := 10_000

  // -------------------------------------------------------------- the writes

  function Mint(s: State, ttl: nat, user: nat, app: App, now: int): State {
    State(s.rows[s.next := Row(user, app, now + ttl, None)], s.next + 1)
  }

  /** The unrevoked rows of a user, in one app or in all of them. */
  predicate Live(r: Row, user: nat, app: Option<App>) {
    r.user == user && (app.None? || r.app == app.value) && r.revokedAt.None?
  }

  /** Ends every live session: revoked, and expired so that the grace window does not apply. */
  function RevokeWhere(rows: map<nat, Row>, user: nat, app: Option<App>, now: int): map<nat, Row> {
    map t | t in rows :: if Live(rows[t], user, app) then rows[t].(revokedAt := Some(now), expiresAt := now)
        else rows[t]
  }

  /** What a refresh decides; `owned` says the account still exists and may sign in. */
  function Verdict(s: State, app: App, token: nat, now: int, owned: bool): Outcome {
    if token !in s.rows || s.rows[token].app != app then Unknown
    else
      var row := s.rows[token];
      if row.expiresAt <= now then Expired
      else if row.revokedAt.Some? && now - row.revokedAt.value > REUSE_GRACE_MS then Reused
      else if !owned then Unknown
      else Accepted(s.next)
  }

  /** The presented row after rotation: the first revocation stands. */
  function Rotated(rows: map<nat, Row>, token: nat, now: int): map<nat, Row>
    requires token in rows
  {
    if rows[token].revokedAt.None? then rows[token := rows[token].(revokedAt := Some(now))] else rows
  }

  /** The table after a refresh; the new row is written at `mintAt`. */
  function Refresh(s: State, ttl: nat, app: App, token: nat, now: int, owned: bool, mintAt: int): State {
    if token !in s.rows || s.rows[token].app != app then s
    else
      var row := s.rows[token];
      if row.expiresAt <= now then s.(rows := s.rows[token := row.(revokedAt := Some(now), expiresAt := now)])
      else if row.revokedAt.Some? && now - row.revokedAt.value > REUSE_GRACE_MS
      then s.(rows := RevokeWhere(s.rows, row.user, Some(app), now))
      else
        var rotated := s.(rows := Rotated(s.rows, token, now));
        if !owned then rotated else Mint(rotated, ttl, row.user, app, mintAt)
  }

  function Logout(s: State, app: App, presented: Option<nat>, now: int): State {
    if presented.None? || presented.value !in s.rows || s.rows[presented.value].app != app then s
    else s.(rows := RevokeWhere(s.rows, s.rows[presented.value].user, Some(app), now))
  }

  function LogoutAll(s: State, user: nat, now: int): State { s.(rows := RevokeWhere(s.rows, user, None, now)) }

  function LogoutEverywhere(s: State, app: App, presented: Option<nat>, now: int): State {
    if presented.None? || presented.value !in s.rows || s.rows[presented.value].app != app then s
    else LogoutAll(s, s.rows[presented.value].user, now)
  }

  function Sweep(s: State, now: int): State {
    s.(rows := map t | t in s.rows && s.rows[t].expiresAt > now :: s.rows[t])
  }

  // -------------------------------------------------------------------- runs

  datatype Op =
    | IssueOp(at: int, user: nat, app: App)
    | RefreshOp(at: int, app: App, token: nat, owned: bool, mintAt: int)
    | LogoutOp(at: int, app: App, presented: Option<nat>)
    | EverywhereOp(at: int, app: App, presented: Option<nat>)
    | LogoutAllOp(at: int, user: nat)
    | SweepOp(at: int)

  function Step(s: State, ttl: nat, op: Op): State {
    match op
    case IssueOp(at, user, app) => Mint(s, ttl, user, app, at)
    case RefreshOp(at, app, token, owned, mintAt) => Refresh(s, ttl, app, token, at, owned, mintAt)
    case LogoutOp(at, app, presented) => Logout(s, app, presented, at)
    case EverywhereOp(at, app, presented) => LogoutEverywhere(s, app, presented, at)
    case LogoutAllOp(at, user) => LogoutAll(s, user, at)
    case SweepOp(at) => Sweep(s, at)
  }

  function Run(s: State, ttl: nat, ops: seq<Op>): State
    decreases |ops|
  {
    if ops == [] then s else Run(Step(s, ttl, ops[0]), ttl, ops[1..])
  }

  /** The clock never goes back. */
  ghost predicate InOrder(ops: seq<Op>) { forall i, j :: 0 <= i < j < |ops| ==> ops[i].at <= ops[j].at }

  ghost predicate Drawn(s: State) { forall t :: t in s.rows ==> t < s.next }

  /** The refresh `op` of `token` is accepted in state `s`. */
  predicate Accepts(s: State, op: Op, token: nat) {
    op.RefreshOp? && op.token == token && Verdict(s, op.app, token, op.at, op.owned).Accepted?
  }

  /** Which presentations are accepted, expired or taken for theft. */
  lemma {:induction false} VerdictMeans(s: State, app: App, token: nat, now: int, owned: bool)
    ensures var known := token in s.rows && s.rows[token].app == app;
            && (Verdict(s, app, token, now, owned).Accepted? <==>
                  known && owned && now < s.rows[token].expiresAt
                  && (s.rows[token].revokedAt.Some? ==> now <= s.rows[token].revokedAt.value + 10_000))
            && (Verdict(s, app, token, now, owned) == Expired <==> known && s.rows[token].expiresAt <= now)
            && (Verdict(s, app, token, now, owned) == Reused <==>
                  known && now < s.rows[token].expiresAt && s.rows[token].revokedAt.Some?
                  && now > s.rows[token].revokedAt.value + 10_000)
  {
  }

  // ------------------------------------------------------- a spent token

  /** Since `first` the token is revoked, or else it is over by now; either way it stays drawn. */
  ghost predicate Spent(s: State, token: nat, first: int, now: int) {
    && token < s.next
    && (token in s.rows ==> (s.rows[token].revokedAt.Some? && s.rows[token].revokedAt.value <= first)
                            || s.rows[token].expiresAt <= now)
  }

  lemma {:induction false} StepKeepsSpent(s: State, ttl: nat, op: Op, token: nat, first: int, now: int)
    requires Spent(s, token, first, now) && now <= op.at
    ensures Spent(Step(s, ttl, op), token, first, op.at)
  {
  }

  /** Nothing was revoked in the future. */
  ghost predicate PastOnly(s: State, now: int) {
    forall t :: t in s.rows && s.rows[t].revokedAt.Some? ==> s.rows[t].revokedAt.value <= now
  }

  lemma {:induction false} AcceptedSpends(s: State, ttl: nat, op: Op, token: nat)
    requires Drawn(s) && PastOnly(s, op.at) && Accepts(s, op, token)
    ensures Spent(Step(s, ttl, op), token, op.at, op.at)
  {
  }

  lemma {:induction false} StepKeepsSound(s: State, ttl: nat, op: Op, now: int)
    requires Drawn(s) && PastOnly(s, now) && now <= op.at
    ensures Drawn(Step(s, ttl, op)) && PastOnly(Step(s, ttl, op), op.at)
  {
  }

  lemma {:induction false} SpentAccepts(s: State, op: Op, token: nat, first: int, now: int)
    requires Spent(s, token, first, now) && now <= op.at && Accepts(s, op, token)
    ensures op.at - first <= REUSE_GRACE_MS
  {
  }

  /** From a state where the token is spent since `first`, an accepted refresh of it comes within the window. */
  lemma {:induction false} SpentRun(s: State, ttl: nat, ops: seq<Op>, token: nat, first: int, now: int, j: nat)
    requires Spent(s, token, first, now) && InOrder(ops) && j < |ops| && now <= ops[0].at
    requires Accepts(Run(s, ttl, ops[..j]), ops[j], token)
    ensures ops[j].at - first <= REUSE_GRACE_MS
    decreases |ops|
  {
    if j == 0 {
      assert ops[..0] == [];
      SpentAccepts(s, ops[0], token, first, now);
    } else {
      StepKeepsSpent(s, ttl, ops[0], token, first, now);
      assert ops[..j][0] == ops[0] && ops[..j][1..] == ops[1..][..j - 1];
      SpentRun(Step(s, ttl, ops[0]), ttl, ops[1..], token, first, ops[0].at, j - 1);
    }
  }

  lemma {:induction false} RunSound(s: State, ttl: nat, ops: seq<Op>, n: nat, now: int)
    requires Drawn(s) && PastOnly(s, now) && InOrder(ops) && n < |ops| && now <= ops[0].at
    ensures Drawn(Run(s, ttl, ops[..n])) && PastOnly(Run(s, ttl, ops[..n]), ops[n].at)
    decreases |ops|
  {
    if n == 0 {
      assert ops[..0] == [];
    } else {
      StepKeepsSound(s, ttl, ops[0], now);
      assert ops[..n][0] == ops[0] && ops[..n][1..] == ops[1..][..n - 1];
      RunSound(Step(s, ttl, ops[0]), ttl, ops[1..], n - 1, ops[0].at);
    }
  }

  lemma {:induction false} RunSplit(s: State, ttl: nat, a: seq<Op>, b: seq<Op>)
    ensures Run(s, ttl, a + b) == Run(Run(s, ttl, a), ttl, b)
    decreases |a|
  {
    if a == [] {
      assert a + b == b;
    } else {
      assert (a + b)[0] == a[0] && (a + b)[1..] == a[1..] + b;
      RunSplit(Step(s, ttl, a[0]), ttl, a[1..], b);
    }
  }

  /** In any run, two accepted refreshes of one token are at most the grace window apart. */
  lemma {:induction false} AcceptedWithinGrace(s: State, ttl: nat, ops: seq<Op>, token: nat, now: int, i: nat, j: nat)
    requires Drawn(s) && PastOnly(s, now) && InOrder(ops) && i < j < |ops| && now <= ops[0].at
    requires Accepts(Run(s, ttl, ops[..i]), ops[i], token) && Accepts(Run(s, ttl, ops[..j]), ops[j], token)
    ensures 0 <= ops[j].at - ops[i].at <= REUSE_GRACE_MS
  {
    RunSound(s, ttl, ops, i, now);
    var before := Run(s, ttl, ops[..i]);
    AcceptedSpends(before, ttl, ops[i], token);
    var rest := ops[i + 1..];
    assert ops[..j] == ops[..i] + ([ops[i]] + rest[..j - i - 1]);
    RunSplit(s, ttl, ops[..i], [ops[i]] + rest[..j - i - 1]);
    assert ([ops[i]] + rest[..j - i - 1])[1..] == rest[..j - i - 1];
    SpentRun(Step(before, ttl, ops[i]), ttl, rest, token, ops[i].at, ops[i].at, j - i - 1);
  }

  // ------------------------------------------------------- an ended row

  /** The row is over: gone, or past its expiry. */
  ghost predicate Over(s: State, token: nat, now: int) {
    token < s.next && (token in s.rows ==> s.rows[token].expiresAt <= now)
  }

  lemma {:induction false} StepKeepsOver(s: State, ttl: nat, op: Op, token: nat, now: int)
    requires Over(s, token, now) && now <= op.at
    ensures Over(Step(s, ttl, op), token, op.at)
  {
  }

  /** What is over is never accepted again, whatever happens afterwards. */
  lemma {:induction false} OverForGood(s: State, ttl: nat, ops: seq<Op>, token: nat, now: int, j: nat)
    requires Over(s, token, now) && InOrder(ops) && j < |ops| && now <= ops[0].at
    ensures !Accepts(Run(s, ttl, ops[..j]), ops[j], token)
    decreases |ops|
  {
    if j == 0 {
      assert ops[..0] == [];
    } else {
      StepKeepsOver(s, ttl, ops[0], token, now);
      assert ops[..j][0] == ops[0] && ops[..j][1..] == ops[1..][..j - 1];
      OverForGood(Step(s, ttl, ops[0]), ttl, ops[1..], token, ops[0].at, j - 1);
    }
  }

  /** The user and the apps whose sessions an operation ends in this state. */
  ghost predicate Ends(s: State, op: Op, user: nat, app: App) {
    match op
    case IssueOp(_, _, _) => false
    case RefreshOp(at, a, token, owned, _) => Verdict(s, a, token, at, owned) == Reused && s.rows[token].user == user
                                              && a == app
    case LogoutOp(_, a, presented) => presented.Some? && presented.value in s.rows
                                      && s.rows[presented.value].app == a == app && s.rows[presented.value].user == user
    case EverywhereOp(_, a, presented) => presented.Some? && presented.value in s.rows
                                          && s.rows[presented.value].app == a && s.rows[presented.value].user == user
    case LogoutAllOp(_, u) => u == user
    case SweepOp(_) => false
  }

  /**
   * Logging out, logging out everywhere and a reuse verdict end exactly the unrevoked rows of that user in
   * that app (or in every app): each is over at once, and no row outside them changes.
   */
  lemma {:induction false} EndingExact(s: State, ttl: nat, op: Op, user: nat, app: App)
    requires Drawn(s) && Ends(s, op, user, app)
    ensures var after := Step(s, ttl, op);
            && after.next == s.next && after.rows.Keys == s.rows.Keys
            && (forall t :: t in s.rows && s.rows[t].user == user && s.rows[t].app == app ==>
                  if s.rows[t].revokedAt.None? then Over(after, t, op.at) && after.rows[t].revokedAt == Some(op.at)
                  else after.rows[t] == s.rows[t])
            && (forall t :: t in s.rows && s.rows[t].user != user ==> after.rows[t] == s.rows[t])
            && (forall t :: t in s.rows && !Ends(s, op, user, s.rows[t].app) ==> after.rows[t] == s.rows[t])
  {
  }

  /** A row that was unrevoked when an operation ended its session is never accepted again. */
  lemma {:induction false} EndedForGood(s: State, ttl: nat, op: Op, ops: seq<Op>, token: nat, j: nat)
    requires Drawn(s) && token in s.rows && s.rows[token].revokedAt.None?
    requires Ends(s, op, s.rows[token].user, s.rows[token].app)
    requires InOrder([op] + ops) && j < |ops|
    ensures !Accepts(Run(Step(s, ttl, op), ttl, ops[..j]), ops[j], token)
  {
    EndingExact(s, ttl, op, s.rows[token].user, s.rows[token].app);
    var all := [op] + ops;
    assert forall k :: 0 <= k < |ops| ==> ops[k] == all[k + 1];
    assert all[0].at <= all[1].at;
    OverForGood(Step(s, ttl, op), ttl, ops, token, op.at, j);
  }

  /** After a reuse verdict the user has no unrevoked row left in that app. */
  lemma {:induction false} ReuseClears(s: State, ttl: nat, op: Op, token: nat)
    requires Drawn(s) && op.RefreshOp? && op.token == token && Verdict(s, op.app, token, op.at, op.owned) == Reused
    ensures var after := Step(s, ttl, op);
            forall t :: t in after.rows && after.rows[t].user == s.rows[token].user && after.rows[t].app == op.app ==>
                after.rows[t].revokedAt.Some?
  {
    EndingExact(s, ttl, op, s.rows[token].user, op.app);
  }

  // ------------------------------------------------- what outlives an ending

  /** A refresh of the row would be accepted: not expired, and unrevoked or revoked within the window. */
  predicate Good(row: Row, now: int) {
    now < row.expiresAt && (row.revokedAt.Some? ==> now <= row.revokedAt.value + REUSE_GRACE_MS)
  }

  predicate Belongs(row: Row, user: nat, app: App) { row.user == user && row.app == app }

  /** The user has no row in that app that a refresh would be accepted on. */
  ghost predicate Closed(s: State, user: nat, app: App, now: int) {
    forall t :: t in s.rows && Belongs(s.rows[t], user, app) ==> !Good(s.rows[t], now)
  }

  /** Some row of theirs was rotated so lately that it may be presented again: what no ending looks at. */
  ghost predicate RotatedLately(s: State, user: nat, app: App, now: int) {
    exists t :: t in s.rows && Belongs(s.rows[t], user, app) && s.rows[t].revokedAt.Some? && Good(s.rows[t], now)
  }

  /** An ending closes the sessions it ends exactly when none of their rows was rotated lately. */
  lemma {:induction false} ClosedAtEnding(s: State, ttl: nat, op: Op, user: nat, app: App)
    requires Drawn(s) && Ends(s, op, user, app)
    ensures Closed(Step(s, ttl, op), user, app, op.at) <==> !RotatedLately(s, user, app, op.at)
  {
    var after := Step(s, ttl, op);
    EndingExact(s, ttl, op, user, app);
    if t :| t in s.rows && Belongs(s.rows[t], user, app) && s.rows[t].revokedAt.Some? && Good(s.rows[t], op.at) {
      assert after.rows[t] == s.rows[t];
    }
    if t :| t in after.rows && Belongs(after.rows[t], user, app) && Good(after.rows[t], op.at) {
      assert t in s.rows && Belongs(s.rows[t], user, app);
    }
  }

  /** The operation logs the user in to that app. */
  predicate Issues(op: Op, user: nat, app: App) { op.IssueOp? && op.user == user && op.app == app }

  /** The operation is a refresh of one of their tokens, and accepted. */
  predicate Admits(s: State, op: Op, user: nat, app: App) {
    op.RefreshOp? && op.token in s.rows && Belongs(s.rows[op.token], user, app) && Accepts(s, op, op.token)
  }

  lemma {:induction false} StepKeepsClosed(s: State, ttl: nat, op: Op, user: nat, app: App, now: int)
    requires Closed(s, user, app, now) && now <= op.at && !Issues(op, user, app)
    ensures Closed(Step(s, ttl, op), user, app, op.at)
  {
  }

  /** A run from `now` on in which they do not log in to that app. */
  ghost predicate WithoutLogin(ops: seq<Op>, now: int, user: nat, app: App) {
    && InOrder(ops)
    && (ops != [] ==> now <= ops[0].at)
    && (forall i :: 0 <= i < |ops| ==> !Issues(ops[i], user, app))
  }

  lemma {:induction false} ClosedRun(s: State, ttl: nat, ops: seq<Op>, user: nat, app: App, now: int, j: nat)
    requires Closed(s, user, app, now) && WithoutLogin(ops, now, user, app) && j < |ops|
    ensures !Admits(Run(s, ttl, ops[..j]), ops[j], user, app)
    decreases |ops|
  {
    if j == 0 {
      assert ops[..0] == [];
    } else {
      StepKeepsClosed(s, ttl, ops[0], user, app, now);
      assert ops[..j][0] == ops[0] && ops[..j][1..] == ops[1..][..j - 1];
      ClosedRun(Step(s, ttl, ops[0]), ttl, ops[1..], user, app, ops[0].at, j - 1);
    }
  }

  /** Whatever runs from here on: no refresh of theirs is accepted until they log in again. */
  ghost predicate OutForGood(s: State, ttl: nat, user: nat, app: App, now: int) {
    forall ops: seq<Op>, j: nat | WithoutLogin(ops, now, user, app) && j < |ops| ::
      !Admits(Run(s, ttl, ops[..j]), ops[j], user, app)
  }

  lemma {:induction false} OutIffClosed(s: State, ttl: nat, user: nat, app: App, now: int)
    ensures OutForGood(s, ttl, user, app, now) <==> Closed(s, user, app, now)
  {
    if Closed(s, user, app, now) {
      forall ops: seq<Op>, j: nat | WithoutLogin(ops, now, user, app) && j < |ops|
        ensures !Admits(Run(s, ttl, ops[..j]), ops[j], user, app)
      {
        ClosedRun(s, ttl, ops, user, app, now, j);
      }
    } else {
      var t :| t in s.rows && Belongs(s.rows[t], user, app) && Good(s.rows[t], now);
      var ops := [RefreshOp(now, app, t, true, now)];
      assert ops[..0] == [] && Run(s, ttl, ops[..0]) == s;
      assert Admits(Run(s, ttl, ops[..0]), ops[0], user, app);
    }
  }

  /**
   * A logout, a logout everywhere or a reuse verdict keeps the user out of the app until the next login, whatever
   * is presented afterwards, exactly when none of their rows there was rotated within the window before it.
   */
  lemma {:induction false} EndingKeepsOutIff(s: State, ttl: nat, op: Op, user: nat, app: App)
    requires Drawn(s) && Ends(s, op, user, app)
    ensures OutForGood(Step(s, ttl, op), ttl, user, app, op.at)
       <==> !exists t :: t in s.rows && s.rows[t].user == user && s.rows[t].app == app && s.rows[t].revokedAt.Some?
                         && op.at < s.rows[t].expiresAt && op.at <= s.rows[t].revokedAt.value + REUSE_GRACE_MS
  {
    ClosedAtEnding(s, ttl, op, user, app);
    OutIffClosed(Step(s, ttl, op), ttl, user, app, op.at);
    if t :| t in s.rows && s.rows[t].user == user && s.rows[t].app == app && s.rows[t].revokedAt.Some?
            && op.at < s.rows[t].expiresAt && op.at <= s.rows[t].revokedAt.value + REUSE_GRACE_MS {
      assert Belongs(s.rows[t], user, app) && Good(s.rows[t], op.at);
    }
  }

  /** Logged in, refreshed at once, logged out a second later, and the first token presented once more: accepted. */
  lemma {:induction false} RotatedOutlivesLogout(ttl: nat)
    requires ttl > 2000
    ensures var first := RefreshOp(0, Shop, 0, true, 0);
            var again := RefreshOp(2000, Shop, 0, true, 2000);
            var ended := Run(State(map[], 0), ttl, [IssueOp(0, 7, Shop), first, LogoutOp(1000, Shop, Some(1))]);
            && (forall t :: t in ended.rows ==> ended.rows[t].revokedAt.Some?)
            && Accepts(ended, again, 0) && Step(ended, ttl, again).rows[2] == Row(7, Shop, 2000 + ttl, None)
  {
    var ops := [IssueOp(0, 7, Shop), RefreshOp(0, Shop, 0, true, 0), LogoutOp(1000, Shop, Some(1))];
    ThreeSteps(State(map[], 0), ttl, ops[0], ops[1], ops[2]);
    var issued := State(map[0 := Row(7, Shop, ttl, None)], 1);
    assert Step(State(map[], 0), ttl, ops[0]) == issued;
    var rotated := State(map[0 := Row(7, Shop, ttl, Some(0)), 1 := Row(7, Shop, ttl, None)], 2);
    assert Step(issued, ttl, ops[1]) == rotated;
    var ended := State(map[0 := Row(7, Shop, ttl, Some(0)), 1 := Row(7, Shop, 1000, Some(1000))], 2);
    assert Step(rotated, ttl, ops[2]) == ended;
  }

  lemma {:induction false} ThreeSteps(s: State, ttl: nat, a: Op, b: Op, c: Op)
    ensures Run(s, ttl, [a, b, c]) == Step(Step(Step(s, ttl, a), ttl, b), ttl, c)
  {
    var ops := [a, b, c];
    assert ops[1..] == [b, c] && ops[1..][1..] == [c] && ops[1..][1..][1..] == [];
    assert Run(Step(s, ttl, a), ttl, ops[1..]) == Run(Step(Step(s, ttl, a), ttl, b), ttl, ops[1..][1..]);
  }

  /** Two rotations, the older token replayed, which ends the session; the other one is accepted a second later. */
  lemma {:induction false} RotatedOutlivesReuse(ttl: nat)
    requires ttl > 100000
    ensures var replay := RefreshOp(21000, Shop, 0, true, 21000);
            var again := RefreshOp(22000, Shop, 1, true, 22000);
            var rotated := Run(State(map[], 0), ttl, [IssueOp(0, 7, Shop), RefreshOp(0, Shop, 0, true, 0),
                                                      RefreshOp(20000, Shop, 1, true, 20000)]);
            var ended := Step(rotated, ttl, replay);
            && Verdict(rotated, Shop, 0, 21000, true) == Reused
            && (forall t :: t in ended.rows ==> ended.rows[t].revokedAt.Some?)
            && Accepts(ended, again, 1) && Step(ended, ttl, again).rows[3] == Row(7, Shop, 22000 + ttl, None)
  {
    var ops := [IssueOp(0, 7, Shop), RefreshOp(0, Shop, 0, true, 0), RefreshOp(20000, Shop, 1, true, 20000)];
    ThreeSteps(State(map[], 0), ttl, ops[0], ops[1], ops[2]);
    var issued := State(map[0 := Row(7, Shop, ttl, None)], 1);
    assert Step(State(map[], 0), ttl, ops[0]) == issued;
    var once := State(map[0 := Row(7, Shop, ttl, Some(0)), 1 := Row(7, Shop, ttl, None)], 2);
    assert Step(issued, ttl, ops[1]) == once;
    var twice := State(map[0 := Row(7, Shop, ttl, Some(0)), 1 := Row(7, Shop, ttl, Some(20000)),
                           2 := Row(7, Shop, 20000 + ttl, None)], 3);
    assert Step(once, ttl, ops[2]) == twice;
    var ended := State(map[0 := Row(7, Shop, ttl, Some(0)), 1 := Row(7, Shop, ttl, Some(20000)),
                           2 := Row(7, Shop, 21000, Some(21000))], 3);
    assert Verdict(twice, Shop, 0, 21000, true) == Reused;
    assert Step(twice, ttl, RefreshOp(21000, Shop, 0, true, 21000)) == ended;
    assert Accepts(ended, RefreshOp(22000, Shop, 1, true, 22000), 1);
    AcceptedMints(ended, ttl, RefreshOp(22000, Shop, 1, true, 22000), 1);
  }

  /** A token presented to another app is unknown there, and nothing is written. */
  lemma {:induction false} OtherAppUnknown(s: State, ttl: nat, op: Op, token: nat)
    requires op.RefreshOp? || op.LogoutOp? || op.EverywhereOp?
    requires if op.RefreshOp? then op.token == token else op.presented == Some(token)
    requires token in s.rows && s.rows[token].app != op.app
    ensures Step(s, ttl, op) == s
    ensures op.RefreshOp? ==> Verdict(s, op.app, token, op.at, op.owned) == Unknown
  {
  }

  /** A refresh writes rows of the presented token's user in that app, and of no one else. */
  lemma {:induction false} RefreshIsolated(s: State, ttl: nat, op: Op, t: nat)
    requires Drawn(s) && op.RefreshOp? && t in s.rows
    requires op.token in s.rows ==> s.rows[t].user != s.rows[op.token].user || s.rows[t].app != op.app
    ensures t in Step(s, ttl, op).rows && Step(s, ttl, op).rows[t] == s.rows[t]
  {
  }

  /** An accepted refresh leaves a new row, live for the whole lifetime, of the same user and app. */
  lemma {:induction false} AcceptedMints(s: State, ttl: nat, op: Op, token: nat)
    requires Drawn(s) && Accepts(s, op, token)
    ensures var after := Step(s, ttl, op);
            && after.next == s.next + 1 && s.next in after.rows && s.next !in s.rows
            && after.rows[s.next] == Row(s.rows[token].user, op.app, op.mintAt + ttl, None)
            && after.rows[token].revokedAt.Some?
  {
  }

  /**
   * What a refresh does to the whole table, presentation by presentation. Unknown to this app: nothing. Expired: that
   * row
   * alone is revoked and ended. Replayed: its session ends, see `EndingExact`. Otherwise the row is revoked if it was
   * not, which is all when the account may not sign in, and a new row is minted when it may.
   */
  lemma {:induction false} RefreshExact(s: State, ttl: nat, app: App, token: nat, now: int, owned: bool, mintAt: int)
    requires Drawn(s)
    ensures var after := Refresh(s, ttl, app, token, now, owned, mintAt);
            var known := token in s.rows && s.rows[token].app == app;
            && (!known ==> after == s)
            && (known && s.rows[token].expiresAt <= now ==>
                  after == State(s.rows[token := Row(s.rows[token].user, app, now, Some(now))], s.next))
            && (known && now < s.rows[token].expiresAt && s.rows[token].revokedAt.Some?
                && now > s.rows[token].revokedAt.value + REUSE_GRACE_MS ==>
                  after.next == s.next && after.rows.Keys == s.rows.Keys
                  && forall t :: t in s.rows ==>
                       after.rows[t] == if s.rows[t].user == s.rows[token].user && s.rows[t].app == app
                                           && s.rows[t].revokedAt.None?
                                        then Row(s.rows[t].user, app, now, Some(now)) else s.rows[t])
    ensures var after := Refresh(s, ttl, app, token, now, owned, mintAt);
            token in s.rows && s.rows[token].app == app && Good(s.rows[token], now) ==>
              && after.rows.Keys == s.rows.Keys + (if owned then {s.next} else {})
              && after.next == s.next + (if owned then 1 else 0)
              && (forall t :: t in s.rows && t != token ==> after.rows[t] == s.rows[t])
              && after.rows[token] == Row(s.rows[token].user, app, s.rows[token].expiresAt,
                                          if s.rows[token].revokedAt.Some? then s.rows[token].revokedAt else Some(now))
              && (owned ==> after.rows[s.next] == Row(s.rows[token].user, app, mintAt + ttl, None))
  {
  }

  /** A login adds one row for the user and app, live for the whole lifetime. */
  lemma {:induction false} IssueExact(s: State, ttl: nat, at: int, user: nat, app: App)
    requires Drawn(s)
    ensures Step(s, ttl, IssueOp(at, user, app)) == State(s.rows[s.next := Row(user, app, at + ttl, None)], s.next + 1)
  {
  }

  /** A logout without a token, with one nobody has, or with one of another app changes nothing. */
  lemma {:induction false} LogoutNothing(s: State, app: App, presented: Option<nat>, now: int)
    requires presented.None? || presented.value !in s.rows || s.rows[presented.value].app != app
    ensures Logout(s, app, presented, now) == s && LogoutEverywhere(s, app, presented, now) == s
  {
  }

  /** A sweep deletes exactly the rows past their expiry and leaves the others as they are. */
  lemma {:induction false} SweepExact(s: State, now: int)
    ensures Sweep(s, now).next == s.next
    ensures forall t :: t in Sweep(s, now).rows <==> t in s.rows && now < s.rows[t].expiresAt
    ensures forall t :: t in Sweep(s, now).rows ==> Sweep(s, now).rows[t] == s.rows[t]
  {
  }

  /** Sweeping is invisible but for the name of the refusal: from then on the same presentations are accepted. */
  lemma {:induction false} SweepInvisible(s: State, now: int, app: App, token: nat, at: int, owned: bool)
    requires now <= at
    ensures var kept, all := Verdict(Sweep(s, now), app, token, at, owned), Verdict(s, app, token, at, owned);
            kept == all || (kept == Unknown && all == Expired)
  {
  }
}
