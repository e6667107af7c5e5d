/**
 Progressive lockout after failed passkey assertions. Times are in milliseconds.
 */
module AuthLockout {
  import opened Wrappers
  import opened Seconds

  const LOCKOUT_THRESHOLD: nat := 5
  const LOCKOUT_DURATION_SECONDS: nat := 900

  function Pow2(n: nat): (p: nat)
    ensures p >= 1
  {
    if n == 0 then 1 else 2 * Pow2(n - 1)
  }

  function DelaySecondsFor(failCount: int): nat {
    if failCount <= 0 then 0 else Pow2(failCount - 1)
  }

  datatype Row = Row(failedCount: nat, delayUntil: Option<int>, lockedUntil: Option<int>)

  datatype LockoutState = LockoutState(blocked: bool, retryAfterSeconds: int, lockedOut: bool)

  type Table = map<string, Row>

  predicate Later(deadline: Option<int>, now: int) {
    deadline.Some? && deadline.value > now
  }

  /** No deadline of the row is ahead. */
  predicate Free(row: Option<Row>, now: int) {
    row.Some? ==> !Later(row.value.lockedUntil, now) && !Later(row.value.delayUntil, now)
  }

  function RowOf(rows: Table, user: string): Option<Row> {
    if user in rows then Some(rows[user]) else None
  }

  /** A row waits for one deadline at most. */
  ghost predicate OneDeadline(rows: Table) {
    forall u :: u in rows ==> rows[u].delayUntil.None? || rows[u].lockedUntil.None?
  }

  // ---------------------------------------------------------------------------
  // What the statements do to a row
  // ---------------------------------------------------------------------------

  /** Seconds to wait after the `n`-th consecutive failure. */
  function WaitAfter(n: nat): nat {
    if n >= LOCKOUT_THRESHOLD then LOCKOUT_DURATION_SECONDS else DelaySecondsFor(n)
  }

  /** The statement that counts a failure leaves the deadline of a row that is there. */
  function AfterCount(row: Option<Row>, now: int): Row {
    match row
    case None => Row(1, Some(now + 1000), None)
    case Some(r) => r.(failedCount := r.failedCount + 1)
  }

  /** The statement that stores the deadline of the `count`-th failure replaces whatever deadline is there. */
  function AfterStore(row: Row, count: nat, now: int): Row {
    var deadline := Some(now + WaitAfter(count) * 1000);
    if count >= LOCKOUT_THRESHOLD then row.(delayUntil := None, lockedUntil := deadline)
    else row.(delayUntil := deadline, lockedUntil := None)
  }

  class LockoutStore {
    var rows: Table

    ghost predicate Valid()
      reads this
    {
      OneDeadline(rows)
    }

    constructor ()
      ensures Valid() && rows == map[]
    {
      rows := map[];
    }

    /** When blocked, `retryAfterSeconds` is the least whole number of seconds that unblocks. */
    method CheckLockout(user: string, now: int) returns (r: LockoutState)
      requires Valid()
      ensures r.blocked <==> !Free(RowOf(rows, user), now)
      ensures r.blocked ==> r.retryAfterSeconds > 0
      ensures forall s: nat :: Free(RowOf(rows, user), now + s * 1000) <==> (r.blocked ==> s >= r.retryAfterSeconds)
      ensures r.lockedOut <==> user in rows && Later(rows[user].lockedUntil, now)
      ensures !r.blocked ==> r.retryAfterSeconds == 0
    {
      if user !in rows {
        return LockoutState(false, 0, false);
      }
      var row := rows[user];
      if row.lockedUntil.Some? && row.lockedUntil.value > now {
        return LockoutState(true, CeilSeconds(row.lockedUntil.value - now), true);
      }
      if row.delayUntil.Some? && row.delayUntil.value > now {
        return LockoutState(true, CeilSeconds(row.delayUntil.value - now), false);
      }
      return LockoutState(false, 0, false);
    }

    /** The first statement of `recordFailedAttempt`; another call can come in before the second. */
    method CountFailure(user: string, now: int) returns (count: nat)
      requires Valid()
      modifies this
      ensures Valid()
      ensures rows == old(rows)[user := AfterCount(RowOf(old(rows), user), now)]
      ensures count == rows[user].failedCount
    {
      if user in rows {
        rows := rows[user := rows[user].(failedCount := rows[user].failedCount + 1)];
      } else {
        rows := rows[user := Row(1, Some(now + 1000), None)];
      }
      count := rows[user].failedCount;
    }

    /** The rest of `recordFailedAttempt`. */
    method StoreDeadline(user: string, newCount: nat, now: int) returns (r: LockoutState)
      requires Valid()
      modifies this
      ensures Valid()
      ensures rows == if user in old(rows) then old(rows)[user := AfterStore(old(rows)[user], newCount, now)]
                      else old(rows)
      ensures r == LockoutState(true, WaitAfter(newCount), newCount >= LOCKOUT_THRESHOLD)
    {
      if newCount >= LOCKOUT_THRESHOLD {
        if user in rows {
          rows := rows[user := rows[user].(lockedUntil := Some(now + LOCKOUT_DURATION_SECONDS * 1000),
                                           delayUntil := None)];
        }
        return LockoutState(true, LOCKOUT_DURATION_SECONDS, true);
      }
      var delaySec := DelaySecondsFor(newCount);
      if user in rows {
        rows := rows[user := rows[user].(delayUntil := Some(now + delaySec * 1000), lockedUntil := None)];
      }
      return LockoutState(true, delaySec, false);
    }

    /** A call that no other call of the user comes into: counted at `now`, stored at `later`. */
    method RecordFailedAttempt(user: string, now: int, later: int) returns (r: LockoutState)
      requires Valid()
      modifies this
      ensures Valid()
      ensures user in rows && forall u :: u != user ==> RowOf(rows, u) == RowOf(old(rows), u)
      ensures var n := (if user in old(rows) then old(rows)[user].failedCount else 0) + 1;
        && rows[user].failedCount == n
        && (forall t :: Free(RowOf(rows, user), t) <==> t >= later + WaitAfter(n) * 1000)
        && (rows[user].lockedUntil.Some? <==> n >= LOCKOUT_THRESHOLD)
        && r == LockoutState(true, WaitAfter(n), n >= LOCKOUT_THRESHOLD)
    {
      var newCount := CountFailure(user, now);
      r := StoreDeadline(user, newCount, later);
    }

    method ResetLockout(user: string)
      requires Valid()
      modifies this
      ensures Valid()
      ensures rows == old(rows)[user := Row(0, None, None)]
    {
      rows := rows[user := Row(0, None, None)];
    }
  }
}
