/**
 * The session service: refresh-token rows created, rewritten and deleted in place, each call proved against its
 * specification.
 */
module SessionService {
  import opened Prelude
  import Spec = Sessions

  type App = Spec.App
  type Row = Spec.Row

  class Tokens {
    const ttl: nat
    var rows: map<nat, Row>
    var next: nat

    function Contents(): Spec.State reads this { Spec.State(rows, next) }

    ghost predicate Valid() reads this { Spec.Drawn(Contents()) }

    constructor (ttl: nat)
      ensures Valid() && this.ttl == ttl && Contents() == Spec.State(map[], 0)
    {
      this.ttl, rows, next := ttl, map[], 0;
    }

    /** Writes a new row and hands its token out. */
    method Mint(user: nat, app: App, now: int) returns (token: nat)
      requires Valid()
      modifies this
      ensures Valid() && token == old(next)
      ensures Contents() == Spec.Mint(old(Contents()), ttl, user, app, now)
    {
      token := next;
      next := next + 1;
      rows := rows[token := Spec.Row(user, app, now + ttl, None)];
    }

    method Issue(user: nat, app: App, now: int) returns (token: nat)
      requires Valid()
      modifies this
      ensures Valid() && token == old(next)
      ensures Contents() == Spec.Mint(old(Contents()), ttl, user, app, now)
    {
      token := Mint(user, app, now);
    }

    /** Ends the unrevoked rows of a user, in one app or in all; how many there were. */
    method RevokeWhere(user: nat, app: Option<App>, now: int) returns (count: nat)
      modifies this`rows
      ensures rows == Spec.RevokeWhere(old(rows), user, app, now)
      ensures count == |set t | t in old(rows) && Spec.Live(old(rows)[t], user, app)|
    {
      ghost var before := rows;
      var found := set t | t in rows && Spec.Live(rows[t], user, app);
      count := |found|;
      var todo := found;
      while todo != {}
        invariant todo <= found && rows.Keys == before.Keys
        invariant forall t :: t in rows ==>
                    rows[t] == if t in found && t !in todo then before[t].(revokedAt := Some(now), expiresAt := now)
                        else before[t]
        decreases |todo|
      {
        ghost var some := Pick(todo);
        assert some in todo;
        var t :| t in todo;
        todo := todo - {t};
        rows := rows[t := rows[t].(revokedAt := Some(now), expiresAt := now)];
      }
    }

    /** Ends one row. */
    method End(token: nat, now: int)
      requires token in rows
      modifies this`rows
      ensures rows == old(rows)[token := old(rows)[token].(revokedAt := Some(now), expiresAt := now)]
    {
      rows := rows[token := rows[token].(revokedAt := Some(now), expiresAt := now)];
    }

    /**
     * Exchanges a token for a new one, or says why not; `owned` is the account's own verdict, `mintAt` the clock's
     * second reading.
     */
    method Refresh(app: App, presented: nat, now: int, owned: bool, mintAt: int) returns (outcome: Spec.Outcome)
      requires Valid()
      modifies this
      ensures Valid()
      ensures outcome == Spec.Verdict(old(Contents()), app, presented, now, owned)
      ensures Contents() == Spec.Refresh(old(Contents()), ttl, app, presented, now, owned, mintAt)
    {
      if presented !in rows || rows[presented].app != app { return Spec.Unknown; }
      var existing := rows[presented];
      if existing.expiresAt <= now {
        End(presented, now);
        return Spec.Expired;
      }
      if existing.revokedAt.Some? {
        if now - existing.revokedAt.value > Spec.REUSE_GRACE_MS {
          var ended := RevokeWhere(existing.user, Some(app), now);
          return Spec.Reused;
        }
      } else {
        rows := rows[presented := existing.(revokedAt := Some(now))];
      }
      if !owned { return Spec.Unknown; }
      var token := Mint(existing.user, app, mintAt);
      return Spec.Accepted(token);
    }

    method Logout(app: App, presented: Option<nat>, now: int)
      requires Valid()
      modifies this`rows
      ensures Valid()
      ensures Contents() == Spec.Logout(old(Contents()), app, presented, now)
    {
      if presented.None? || presented.value !in rows || rows[presented.value].app != app { return; }
      var ended := RevokeWhere(rows[presented.value].user, Some(app), now);
    }

    method LogoutAll(user: nat, now: int) returns (count: nat)
      requires Valid()
      modifies this`rows
      ensures Valid()
      ensures Contents() == Spec.LogoutAll(old(Contents()), user, now)
      ensures count == |set t | t in old(rows) && Spec.Live(old(rows)[t], user, None)|
    {
      count := RevokeWhere(user, None, now);
    }

    method LogoutEverywhere(app: App, presented: Option<nat>, now: int) returns (count: nat)
      requires Valid()
      modifies this`rows
      ensures Valid()
      ensures Contents() == Spec.LogoutEverywhere(old(Contents()), app, presented, now)
    {
      if presented.None? || presented.value !in rows || rows[presented.value].app != app { return 0; }
      count := LogoutAll(rows[presented.value].user, now);
    }

    /** Deletes the rows past their expiry; how many there were. */
    method SweepExpired(now: int) returns (count: nat)
      requires Valid()
      modifies this`rows
      ensures Valid()
      ensures Contents() == Spec.Sweep(old(Contents()), now)
      ensures count == |set t | t in old(rows) && old(rows)[t].expiresAt <= now|
    {
      var gone := set t | t in rows && rows[t].expiresAt <= now;
      count := |gone|;
      rows := map t | t in rows && t !in gone :: rows[t];
    }
  }
}
