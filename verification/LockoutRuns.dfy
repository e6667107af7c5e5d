/**
 Runs of overlapping attempts of one user; no other row of the table is read or written.
 */
module LockoutRuns {
  import opened Wrappers
  import opened AuthLockout

  /**
   An attempt that passed the check at `at`, when the row still covered the wait of failure `mark`; or one
   that was counted as failure `count` and has yet to store its deadline, perhaps from before a success.
   */
  datatype Attempt =
    | Checking(at: int, mark: nat)
    | Recording(count: nat, stale: bool)

  /** When a failure was counted, and how many waits had been lost by then. */
  datatype Failed = Failed(at: int, slips: nat)

  /**
   The user's row and attempts, and of the time since the last success: the failures, the failure whose wait
   the row covers, and how often a wait was lost.
   */
  datatype Sys = Sys(
    row: Option<Row>,
    attempts: map<nat, Attempt>,
    failures: seq<Failed>,
    mark: nat,
    slips: nat,
    clock: int)

  const Initial := Sys(None, map[], [], 0, 0, 0)

  datatype Event =
    | Begin(id: nat, at: int)
    | Count(id: nat, at: int)
    | Store(id: nat, at: int)
    | Succeed(id: nat, at: int)
    | Drop(id: nat, at: int)

  predicate IsChecking(s: Sys, id: nat) {
    id in s.attempts && s.attempts[id].Checking?
  }

  predicate IsRecording(s: Sys, id: nat) {
    id in s.attempts && s.attempts[id].Recording?
  }

  /** The clock does not run backwards; an attempt begins when the row is free, and can stop anywhere. */
  predicate CanStep(s: Sys, e: Event) {
    && s.clock <= e.at
    && match e
       case Begin(id, at) => id !in s.attempts && Free(s.row, at)
       case Count(id, _) => IsChecking(s, id)
       case Store(id, _) => IsRecording(s, id)
       case Succeed(id, _) => IsChecking(s, id)
       case Drop(id, _) => id in s.attempts
  }

  /** A deadline below the lock replaces that of a later failure. */
  predicate CutsShort(s: Sys, count: nat) {
    count < s.mark && count < LOCKOUT_THRESHOLD
  }

  /** The record of a failure whose wait is not covered yet. */
  predicate IsOpen(s: Sys, a: Attempt) {
    a.Recording? && !a.stale && a.count > s.mark
  }

  function Retired(a: Attempt): Attempt {
    match a
    case Checking(at, _) => Checking(at, 0)
    case Recording(count, _) => Recording(count, true)
  }

  function Next(s: Sys, e: Event): Sys
    requires CanStep(s, e)
  {
    match e
    case Begin(id, at) => s.(attempts := s.attempts[id := Checking(at, s.mark)], clock := at)
    case Count(id, at) =>
      var row := AfterCount(s.row, at);
      s.(row := Some(row), attempts := s.attempts[id := Recording(row.failedCount, false)],
         failures := s.failures + [Failed(at, s.slips)], clock := at)
    case Store(id, at) =>
      var a := s.attempts[id];
      s.(row := if s.row.Some? then Some(AfterStore(s.row.value, a.count, at)) else None,
         attempts := s.attempts - {id},
         mark := if CutsShort(s, a.count) || IsOpen(s, a) then a.count else s.mark,
         slips := if CutsShort(s, a.count) then s.slips + 1 else s.slips,
         clock := at)
    case Succeed(id, at) =>
      Sys(Some(Row(0, None, None)), map x | x in s.attempts && x != id :: Retired(s.attempts[x]), [], 0, 0, at)
    case Drop(id, at) =>
      s.(attempts := s.attempts - {id}, slips := if IsOpen(s, s.attempts[id]) then s.slips + 1 else s.slips,
         clock := at)
  }

  /** A run in which at most `c` attempts are ever between check and end. */
  ghost predicate IsRun(events: seq<Event>, c: nat)
    decreases |events|, 0
  {
    events == [] || IsStep(events[..|events| - 1], events[|events| - 1], c)
  }

  ghost predicate IsStep(front: seq<Event>, e: Event, c: nat)
    decreases |front|, 1
  {
    && IsRun(front, c) && CanStep(Exec(front), e)
    && |Next(Exec(front), e).attempts| <= c
  }

  /** The state after the events; an event that cannot happen changes nothing. */
  ghost function Exec(events: seq<Event>): Sys {
    if events == [] then Initial
    else
      var s, e := Exec(events[..|events| - 1]), events[|events| - 1];
      if CanStep(s, e) then Next(s, e) else s
  }

  // ---------------------------------------------------------------------------
  // What every step keeps
  // ---------------------------------------------------------------------------

  /** The row is not free before `deadline`. */
  ghost predicate Covers(row: Option<Row>, deadline: int) {
    row.Some? &&
    (Later(row.value.delayUntil, deadline - 1) || Later(row.value.lockedUntil, deadline - 1))
  }

  /** When the wait that failure `n` imposes is over, counted from the failure. */
  ghost function WaitOver(failures: seq<Failed>, n: nat): int
    requires 1 <= n <= |failures|
  {
    failures[n - 1].at + WaitAfter(n) * 1000
  }

  /** The row holds the count of the failures and covers the wait of the failure at the mark. */
  ghost predicate RowMatches(row: Option<Row>, failures: seq<Failed>, mark: nat) {
    && |failures| == (if row.Some? then row.value.failedCount else 0)
    && mark <= |failures| && (mark > 0 ==> Covers(row, WaitOver(failures, mark)))
  }

  ghost predicate Ordered(failures: seq<Failed>, slips: nat, clock: int) {
    && (forall i, j :: 0 <= i < j < |failures| ==>
          failures[i].at <= failures[j].at && failures[i].slips <= failures[j].slips)
    && (forall i :: 0 <= i < |failures| ==> failures[i].at <= clock && failures[i].slips <= slips)
  }

  /** An attempt still checking waited for the failure at its mark, one recording is among the counted. */
  ghost predicate Waited(a: Attempt, failures: seq<Failed>, clock: int) {
    match a
    case Checking(at, mark) =>
      at <= clock && mark <= |failures| && (mark > 0 ==> at >= WaitOver(failures, mark))
    case Recording(count, stale) =>
      !stale ==> 1 <= count <= |failures|
  }

  ghost predicate AllWaited(attempts: map<nat, Attempt>, failures: seq<Failed>, clock: int) {
    forall x :: x in attempts ==> Waited(attempts[x], failures, clock)
  }

  /** The record of failure `i` is open. */
  ghost predicate InRecord(attempts: map<nat, Attempt>, i: nat) {
    exists x :: x in attempts && attempts[x] == Recording(i + 1, false)
  }

  /** Failures after the mark still have their record open, unless a wait was lost since. */
  ghost predicate AllOpen(s: Sys) {
    forall i :: s.mark <= i < |s.failures| ==> s.slips > s.failures[i].slips || InRecord(s.attempts, i)
  }

  /** Attempts that are checking and have not waited for failure `i`. */
  ghost function Unwaited(attempts: map<nat, Attempt>, i: nat): set<nat> {
    set x | x in attempts && attempts[x].Checking? && attempts[x].mark <= i
  }

  /** The last failure came after the wait that failure `i` imposed. */
  ghost predicate Served(failures: seq<Failed>, i: nat)
    requires i < |failures|
  {
    failures[|failures| - 1].at >= WaitOver(failures, i + 1)
  }

  /**
   Until a failure after failure `i` has waited for it, or a wait was lost, those after it and the attempts
   that have not waited for it are fewer than `c`.
   */
  ghost predicate Accounted(attempts: map<nat, Attempt>, failures: seq<Failed>, slips: nat, c: nat, i: nat)
    requires i < |failures|
  {
    || Served(failures, i) || slips > failures[i].slips
    || |Unwaited(attempts, i)| + (|failures| - 1 - i) < c
  }

  ghost predicate AllAccounted(attempts: map<nat, Attempt>, failures: seq<Failed>, slips: nat, c: nat) {
    forall i :: 0 <= i < |failures| ==> Accounted(attempts, failures, slips, c, i)
  }

  /** Every failure comes after the wait of the `c`-th failure before it, unless a wait was lost in between. */
  ghost predicate SpacedOrLost(failures: seq<Failed>, c: nat)
    requires c >= 1
  {
    forall i :: c <= i < |failures| ==>
      failures[i].slips > failures[i - c].slips || failures[i].at >= WaitOver(failures, i - c + 1)
  }

  ghost predicate Inv(s: Sys, c: nat) {
    && c >= 1 && |s.attempts| <= c
    && RowMatches(s.row, s.failures, s.mark) && Ordered(s.failures, s.slips, s.clock)
    && AllWaited(s.attempts, s.failures, s.clock) && AllOpen(s)
    && AllAccounted(s.attempts, s.failures, s.slips, c) && SpacedOrLost(s.failures, c)
  }

  lemma WaitGrows(m: nat, n: nat)
    requires 1 <= m <= n || (m >= 1 && n >= LOCKOUT_THRESHOLD)
    ensures WaitAfter(m) <= WaitAfter(n)
  {
    assert Pow2(0) == 1 && Pow2(1) == 2 && Pow2(2) == 4 && Pow2(3) == 8;
  }

  lemma {:induction false} SubsetSize(a: set<nat>, b: set<nat>)
    requires a <= b
    ensures |a| <= |b|
  {
    if a != {} {
      var x :| x in a;
      SubsetSize(a - {x}, b - {x});
    }
  }

  /** No new failure, no new attempt. */
  lemma FewerStayAccounted(
      fewer: map<nat, Attempt>, attempts: map<nat, Attempt>, failures: seq<Failed>,
      slips: nat, slips': nat, c: nat)
    requires AllAccounted(attempts, failures, slips, c) && slips <= slips'
    requires forall i :: 0 <= i < |failures| ==> Unwaited(fewer, i) <= Unwaited(attempts, i)
    ensures AllAccounted(fewer, failures, slips', c)
  {
    forall i | 0 <= i < |failures| ensures Accounted(fewer, failures, slips', c, i) {
      assert Accounted(attempts, failures, slips, c, i);
      SubsetSize(Unwaited(fewer, i), Unwaited(attempts, i));
    }
  }

  ghost function Open(attempts: map<nat, Attempt>, i: nat): set<nat> {
    set x | x in attempts && attempts[x].Recording? && !attempts[x].stale && attempts[x].count > i
  }

  lemma {:induction false} OpenMany(attempts: map<nat, Attempt>, i: nat, n: nat)
    requires i <= n && forall k :: i <= k < n ==> InRecord(attempts, k)
    ensures |Open(attempts, i)| >= n - i
    decreases n - i
  {
    if i < n {
      assert InRecord(attempts, i);
      var x :| x in attempts && attempts[x] == Recording(i + 1, false);
      OpenMany(attempts, i + 1, n);
      SubsetSize(Open(attempts, i + 1) + {x}, Open(attempts, i));
    }
  }

  /** A failure whose record and those after it are open is accounted for by the attempts in flight. */
  lemma OpenIsAccounted(attempts: map<nat, Attempt>, failures: seq<Failed>, slips: nat, c: nat, i: nat)
    requires i < |failures| && |attempts| <= c
    requires forall k :: i <= k < |failures| ==> InRecord(attempts, k)
    ensures Accounted(attempts, failures, slips, c, i)
  {
    OpenMany(attempts, i, |failures|);
    SubsetSize(Unwaited(attempts, i) + Open(attempts, i), attempts.Keys);
  }

  lemma BeginKeepsAccounted(s: Sys, e: Event, c: nat)
    requires Inv(s, c) && CanStep(s, e) && e.Begin? && |Next(s, e).attempts| <= c
    ensures AllAccounted(Next(s, e).attempts, s.failures, s.slips, c)
  {
    var attempts := Next(s, e).attempts;
    forall i | 0 <= i < |s.failures| ensures Accounted(attempts, s.failures, s.slips, c, i) {
      assert Accounted(s.attempts, s.failures, s.slips, c, i);
      if i < s.mark {
        assert Unwaited(attempts, i) == Unwaited(s.attempts, i);
      } else if s.slips <= s.failures[i].slips {
        forall k | i <= k < |s.failures| ensures InRecord(attempts, k) {
          StillInRecord(s.attempts, attempts, k);
        }
        OpenIsAccounted(attempts, s.failures, s.slips, c, i);
      }
    }
  }

  lemma StillInRecord(attempts: map<nat, Attempt>, attempts': map<nat, Attempt>, i: nat)
    requires InRecord(attempts, i)
    requires forall x :: x in attempts && attempts[x] == Recording(i + 1, false) ==>
      x in attempts' && attempts'[x] == attempts[x]
    ensures InRecord(attempts', i)
  {
    var x :| x in attempts && attempts[x] == Recording(i + 1, false);
    assert x in attempts' && attempts'[x] == Recording(i + 1, false);
  }

  lemma BeginKeepsInv(s: Sys, e: Event, c: nat)
    requires Inv(s, c) && CanStep(s, e) && e.Begin? && |Next(s, e).attempts| <= c
    ensures Inv(Next(s, e), c)
  {
    var s' := Next(s, e);
    BeginKeepsAccounted(s, e, c);
    forall i | s'.mark <= i < |s'.failures| && s'.slips <= s'.failures[i].slips
      ensures InRecord(s'.attempts, i)
    {
      StillInRecord(s.attempts, s'.attempts, i);
    }
  }

  lemma CountAccounts(
      attempts: map<nat, Attempt>, id: nat, a: Attempt, failures: seq<Failed>, f: Failed, clock: int, c: nat, i: nat)
    requires id in attempts && attempts[id].Checking? && a.Recording? && i <= |failures| && |attempts| <= c
    requires Ordered(failures, f.slips, clock) && clock <= f.at && Waited(attempts[id], failures, clock)
    requires i < |failures| ==> Accounted(attempts, failures, f.slips, c, i)
    ensures Accounted(attempts[id := a], failures + [f], f.slips, c, i)
  {
    var before, after := Unwaited(attempts, i), Unwaited(attempts[id := a], i);
    if i == |failures| {
      SubsetSize(after + {id}, attempts.Keys);
    } else if attempts[id].mark <= i {
      assert before == after + {id};
    } else {
      WaitGrows(i + 1, attempts[id].mark);
      assert Served(failures + [f], i);
    }
  }

  lemma CountKeepsAccounted(
      attempts: map<nat, Attempt>, id: nat, a: Attempt, failures: seq<Failed>, f: Failed, clock: int, c: nat)
    requires id in attempts && attempts[id].Checking? && a.Recording? && |attempts| <= c
    requires Ordered(failures, f.slips, clock) && clock <= f.at && Waited(attempts[id], failures, clock)
    requires AllAccounted(attempts, failures, f.slips, c)
    ensures AllAccounted(attempts[id := a], failures + [f], f.slips, c)
  {
    var attempts', failures' := attempts[id := a], failures + [f];
    forall i | 0 <= i < |failures'| ensures Accounted(attempts', failures', f.slips, c, i) {
      CountAccounts(attempts, id, a, failures, f, clock, c, i);
    }
  }

  /** With `c` failures after failure `i`, no attempt that has not waited for it is left. */
  lemma CountKeepsSpaced(attempts: map<nat, Attempt>, failures: seq<Failed>, f: Failed, c: nat)
    requires c >= 1 && SpacedOrLost(failures, c)
    requires AllAccounted(attempts, failures + [f], f.slips, c)
    ensures SpacedOrLost(failures + [f], c)
  {
    var n := |failures|;
    if n >= c {
      assert Accounted(attempts, failures + [f], f.slips, c, n - c);
    }
  }

  lemma CountKeepsWaited(
      attempts: map<nat, Attempt>, id: nat, count: nat, failures: seq<Failed>, slips: nat, clock: int, at: int)
    requires clock <= at && Ordered(failures, slips, clock) && AllWaited(attempts, failures, clock)
    requires 1 <= count <= |failures| + 1
    ensures Ordered(failures + [Failed(at, slips)], slips, at)
    ensures AllWaited(attempts[id := Recording(count, false)], failures + [Failed(at, slips)], at)
  {
  }

  lemma CountKeepsOpen(s: Sys, e: Event)
    requires CanStep(s, e) && e.Count? && AllOpen(s) && RowMatches(s.row, s.failures, s.mark)
    ensures AllOpen(Next(s, e))
  {
    var s', n := Next(s, e), |s.failures|;
    assert s'.attempts[e.id] == Recording(n + 1, false);
    forall i | s.mark <= i < n && s.slips <= s.failures[i].slips ensures InRecord(s'.attempts, i) {
      StillInRecord(s.attempts, s'.attempts, i);
    }
  }

  lemma CountKeepsInv(s: Sys, e: Event, c: nat)
    requires Inv(s, c) && CanStep(s, e) && e.Count? && |Next(s, e).attempts| <= c
    ensures Inv(Next(s, e), c)
  {
    var f, n := Failed(e.at, s.slips), |s.failures|;
    CountKeepsWaited(s.attempts, e.id, n + 1, s.failures, s.slips, s.clock, e.at);
    CountKeepsAccounted(s.attempts, e.id, Recording(n + 1, false), s.failures, f, s.clock, c);
    CountKeepsSpaced(Next(s, e).attempts, s.failures, f, c);
    CountKeepsOpen(s, e);
    assert RowMatches(Next(s, e).row, s.failures + [f], s.mark);
  }

  /** The deadline that is stored covers the wait of the failure at the new mark. */
  lemma StoreKeepsRow(s: Sys, e: Event, c: nat)
    requires Inv(s, c) && CanStep(s, e) && e.Store?
    ensures RowMatches(Next(s, e).row, s.failures, Next(s, e).mark)
  {
    var s', a := Next(s, e), s.attempts[e.id];
    if s'.mark > 0 {
      assert Waited(a, s.failures, s.clock);
      assert s.row.Some? && s.failures[s'.mark - 1].at <= e.at;
      WaitGrows(s'.mark, a.count);
    }
  }

  lemma EndKeepsOpen(s: Sys, e: Event)
    requires CanStep(s, e) && (e.Store? || e.Drop?) && AllOpen(s) && Ordered(s.failures, s.slips, s.clock)
    ensures AllOpen(Next(s, e))
  {
    var s', a := Next(s, e), s.attempts[e.id];
    forall i | s'.mark <= i < |s.failures| && s'.slips <= s.failures[i].slips
      ensures InRecord(s'.attempts, i)
    {
      assert s'.slips == s.slips && s.mark <= i;
      StillInRecord(s.attempts, s'.attempts, i);
    }
  }

  lemma EndKeepsInv(s: Sys, e: Event, c: nat)
    requires Inv(s, c) && CanStep(s, e) && (e.Store? || e.Drop?)
    ensures Inv(Next(s, e), c)
  {
    var s' := Next(s, e);
    if e.Store? { StoreKeepsRow(s, e, c); }
    EndKeepsOpen(s, e);
    FewerStayAccounted(s'.attempts, s.attempts, s.failures, s.slips, s'.slips, c);
    assert s'.attempts.Keys <= s.attempts.Keys;
    SubsetSize(s'.attempts.Keys, s.attempts.Keys);
  }

  lemma SucceedKeepsInv(s: Sys, e: Event, c: nat)
    requires Inv(s, c) && CanStep(s, e) && e.Succeed? && |Next(s, e).attempts| <= c
    ensures Inv(Next(s, e), c)
  {
  }

  lemma {:induction false} RunKeepsInv(events: seq<Event>, c: nat)
    requires c >= 1 && IsRun(events, c)
    ensures Inv(Exec(events), c)
  {
    if events != [] {
      var front, e := events[..|events| - 1], events[|events| - 1];
      assert IsStep(front, e, c);
      RunKeepsInv(front, c);
      match e
      case Begin(_, _) => BeginKeepsInv(Exec(front), e, c);
      case Count(_, _) => CountKeepsInv(Exec(front), e, c);
      case Succeed(_, _) => SucceedKeepsInv(Exec(front), e, c);
      case _ => EndKeepsInv(Exec(front), e, c);
    }
  }

  // ---------------------------------------------------------------------------
  // Deadlines stored in order
  // ---------------------------------------------------------------------------

  /** The record of a failure since the last success stops before its deadline is stored. */
  predicate CutsOff(s: Sys, e: Event) {
    e.Drop? && IsRecording(s, e.id) && !s.attempts[e.id].stale
  }

  /** A deadline is stored when no earlier failure has yet to store its own, and no record is cut off. */
  ghost predicate StoresNext(s: Sys, e: Event) {
    && !CutsOff(s, e)
    && (e.Store? && IsRecording(s, e.id) && !s.attempts[e.id].stale ==>
          forall x :: x in s.attempts && x != e.id && s.attempts[x].Recording? ==>
            !s.attempts[x].stale && s.attempts[x].count > s.attempts[e.id].count)
  }

  ghost predicate InOrder(events: seq<Event>) {
    events == [] ||
    (InOrder(events[..|events| - 1]) && StoresNext(Exec(events[..|events| - 1]), events[|events| - 1]))
  }

  ghost predicate NoneCutOff(events: seq<Event>) {
    events == [] ||
    (NoneCutOff(events[..|events| - 1]) && !CutsOff(Exec(events[..|events| - 1]), events[|events| - 1]))
  }

  /** No wait was lost, and what is still to be stored comes after the mark. */
  ghost predicate NothingLost(s: Sys) {
    && s.slips == 0
    && forall x :: x in s.attempts && s.attempts[x].Recording? ==>
         if s.attempts[x].stale then s.mark == 0 else s.attempts[x].count > s.mark
  }

  lemma StepLosesNothing(s: Sys, e: Event, c: nat)
    requires Inv(s, c) && NothingLost(s) && CanStep(s, e) && StoresNext(s, e)
    ensures NothingLost(Next(s, e))
  {
  }

  lemma {:induction false} RunLosesNothing(events: seq<Event>, c: nat)
    requires c >= 1 && IsRun(events, c) && InOrder(events)
    ensures NothingLost(Exec(events))
  {
    if events != [] {
      var front, e := events[..|events| - 1], events[|events| - 1];
      assert IsStep(front, e, c);
      RunKeepsInv(front, c);
      RunLosesNothing(front, c);
      StepLosesNothing(Exec(front), e, c);
    }
  }

  /** The times of the failures since the last success. */
  ghost function FailureTimes(events: seq<Event>): (times: seq<int>)
    ensures |times| == |Exec(events).failures|
    ensures forall i :: 0 <= i < |times| ==> times[i] == Exec(events).failures[i].at
  {
    var failures := Exec(events).failures;
    seq(|failures|, i requires 0 <= i < |failures| => failures[i].at)
  }

  /** Every failure comes after the wait that the `c`-th failure before it imposed. */
  ghost predicate Spaced(times: seq<int>, c: nat)
    requires c >= 1
  {
    forall i :: c <= i < |times| ==> times[i] - times[i - c] >= WaitAfter(i - c + 1) * 1000
  }

  ghost predicate Rising(times: seq<int>) {
    forall i, j :: 0 <= i < j < |times| ==> times[i] <= times[j]
  }

  /**
   With at most `c` attempts in flight whose deadlines are stored in the order of their counts, `c` failures
   in a row take at least the wait that the first of them imposes.
   */
  lemma FailuresAreSpaced(events: seq<Event>, c: nat)
    requires c >= 1 && IsRun(events, c) && InOrder(events)
    ensures Spaced(FailureTimes(events), c) && Rising(FailureTimes(events))
  {
    RunKeepsInv(events, c);
    RunLosesNothing(events, c);
  }

  /** Attempts one after another store in order. */
  lemma {:induction false} OneAtATimeIsInOrder(events: seq<Event>)
    requires IsRun(events, 1) && NoneCutOff(events)
    ensures InOrder(events)
  {
    if events != [] {
      var front, e := events[..|events| - 1], events[|events| - 1];
      assert IsStep(front, e, 1);
      RunKeepsInv(front, 1);
      OneAtATimeIsInOrder(front);
      if e.Store? {
        OnlyOne(Exec(front).attempts, e.id);
      }
    }
  }

  lemma OnlyOne(attempts: map<nat, Attempt>, id: nat)
    requires id in attempts && |attempts| <= 1
    ensures attempts.Keys == {id}
  {
    if x :| x in attempts && x != id {
      SubsetSize({id, x}, attempts.Keys);
    }
  }

  // ---------------------------------------------------------------------------
  // Deadlines stored in any order
  // ---------------------------------------------------------------------------

  /** Records that can still store a deadline below the lock. */
  ghost function Short(attempts: map<nat, Attempt>): set<nat> {
    set x | x in attempts && attempts[x].Recording? && attempts[x].count < LOCKOUT_THRESHOLD
  }

  /** The failures so far that impose less than the lock. */
  function Least(n: nat): nat {
    if n < LOCKOUT_THRESHOLD then n else LOCKOUT_THRESHOLD - 1
  }

  /** The records left over from before the last success, at most, and those cut off since. */
  ghost function Slack(events: seq<Event>, c: nat): nat
    requires c >= 1
  {
    if events == [] then 0
    else
      var front, e := events[..|events| - 1], events[|events| - 1];
      if e.Succeed? then c - 1
      else if CutsOff(Exec(front), e) then Slack(front, c) + 1
      else Slack(front, c)
  }

  /** A wait is lost to one of the first failures, to a record left over, or to one cut off. */
  ghost predicate FewSlips(s: Sys, slack: nat) {
    s.slips + |Short(s.attempts)| <= Least(|s.failures|) + slack
  }

  lemma ShortWithout(attempts: map<nat, Attempt>, id: nat)
    requires id in attempts
    ensures |Short(attempts - {id})| == |Short(attempts)| - (if id in Short(attempts) then 1 else 0)
  {
    if id in Short(attempts) {
      assert Short(attempts) == Short(attempts - {id}) + {id};
    } else {
      assert Short(attempts) == Short(attempts - {id});
    }
  }

  lemma EndKeepsFewSlips(s: Sys, e: Event, slack: nat)
    requires CanStep(s, e) && (e.Store? || e.Drop?) && FewSlips(s, slack)
    ensures FewSlips(Next(s, e), if CutsOff(s, e) then slack + 1 else slack)
  {
    ShortWithout(s.attempts, e.id);
  }

  lemma CountKeepsFewSlips(s: Sys, e: Event, slack: nat)
    requires CanStep(s, e) && e.Count? && FewSlips(s, slack) && RowMatches(s.row, s.failures, s.mark)
    ensures FewSlips(Next(s, e), slack)
  {
    var before, after := Short(s.attempts), Short(Next(s, e).attempts);
    assert Next(s, e).attempts[e.id] == Recording(|s.failures| + 1, false);
    if |s.failures| + 1 < LOCKOUT_THRESHOLD {
      assert after == before + {e.id};
    } else {
      assert after == before;
    }
  }

  lemma SucceedKeepsFewSlips(s: Sys, e: Event, c: nat)
    requires CanStep(s, e) && e.Succeed? && 1 <= c && |s.attempts| <= c
    ensures FewSlips(Next(s, e), c - 1)
  {
    var attempts := Next(s, e).attempts;
    assert Short(attempts) + {e.id} <= s.attempts.Keys;
    SubsetSize(Short(attempts) + {e.id}, s.attempts.Keys);
  }

  lemma BeginKeepsFewSlips(s: Sys, e: Event, slack: nat)
    requires CanStep(s, e) && e.Begin? && FewSlips(s, slack)
    ensures FewSlips(Next(s, e), slack)
  {
    assert Short(Next(s, e).attempts) == Short(s.attempts);
  }

  lemma {:induction false} RunKeepsFewSlips(events: seq<Event>, c: nat)
    requires c >= 1 && IsRun(events, c)
    ensures FewSlips(Exec(events), Slack(events, c))
  {
    if events == [] {
      assert Short(Initial.attempts) == {};
    } else {
      var front, e := events[..|events| - 1], events[|events| - 1];
      assert IsStep(front, e, c);
      RunKeepsInv(front, c);
      RunKeepsFewSlips(front, c);
      match e
      case Begin(_, _) => BeginKeepsFewSlips(Exec(front), e, Slack(front, c));
      case Count(_, _) => CountKeepsFewSlips(Exec(front), e, Slack(front, c));
      case Succeed(_, _) => SucceedKeepsFewSlips(Exec(front), e, c);
      case _ => EndKeepsFewSlips(Exec(front), e, Slack(front, c));
    }
  }

  /** `k` times `c` failures after the fifth take 900 seconds each, apart from those where a wait was lost. */
  lemma {:induction false} LockedSpan(failures: seq<Failed>, slips: nat, clock: int, c: nat, k: nat)
    requires c >= 1 && SpacedOrLost(failures, c) && Ordered(failures, slips, clock)
    requires 4 + k * c < |failures|
    ensures var first, last := failures[4], failures[4 + k * c];
      last.at - first.at >= 900_000 * (k - (last.slips - first.slips))
  {
    if k > 0 {
      assert k * c == (k - 1) * c + c;
      LockedSpan(failures, slips, clock, c, k - 1);
      var i := 4 + (k - 1) * c;
      assert failures[i].at <= failures[i + c].at && failures[i].slips <= failures[i + c].slips;
      assert WaitAfter(i + 1) == LOCKOUT_DURATION_SECONDS;
    }
  }

  lemma LockedUpTo(failures: seq<Failed>, slips: nat, clock: int, c: nat, rounds: nat, n: nat)
    requires c >= 1 && SpacedOrLost(failures, c) && Ordered(failures, slips, clock)
    requires 4 + rounds * c < n <= |failures|
    ensures failures[n - 1].at - failures[0].at >= 900_000 * (rounds - slips)
  {
    LockedSpan(failures, slips, clock, c, rounds);
    var i := 4 + rounds * c;
    assert failures[i].slips <= slips && failures[i].at <= failures[n - 1].at;
    assert failures[0].at <= failures[4].at;
  }

  /**
   In whatever order deadlines are stored: from the fifth failure on `c` failures cost 900 seconds, except
   once for each of the four failures below the lock and for each record that is left over or cut off.
   */
  lemma LockStillHolds(events: seq<Event>, c: nat, n: nat, rounds: nat)
    requires c >= 1 && IsRun(events, c) && 4 + rounds * c < n <= |FailureTimes(events)|
    ensures var times := FailureTimes(events);
      times[n - 1] - times[0] >= 900_000 * (rounds - 4 - Slack(events, c))
  {
    var s := Exec(events);
    RunKeepsInv(events, c);
    RunKeepsFewSlips(events, c);
    LockedUpTo(s.failures, s.slips, s.clock, c, rounds, n);
  }

  // ---------------------------------------------------------------------------
  // The least time that failures can take
  // ---------------------------------------------------------------------------

  /** Seconds from the first failure to the `n`-th when every `c` of them come at once. */
  function LeastSpan(n: nat, c: nat): nat
    requires c >= 1
  {
    if n <= c then 0 else LeastSpan(n - c, c) + WaitAfter(n - c)
  }

  lemma {:induction false} SpacedSpan(times: seq<int>, c: nat, n: nat)
    requires c >= 1 && Spaced(times, c) && Rising(times) && 1 <= n <= |times|
    ensures times[n - 1] - times[0] >= LeastSpan(n, c) * 1000
  {
    if n > c {
      SpacedSpan(times, c, n - c);
      assert times[n - 1] - times[n - 1 - c] >= WaitAfter(n - c) * 1000;
    }
  }

  /** Stored in order, the `n`-th failure comes at least `LeastSpan(n, c)` seconds after the first. */
  lemma LockoutSlowsGuessing(events: seq<Event>, c: nat, n: nat)
    requires c >= 1 && IsRun(events, c) && InOrder(events) && 1 <= n <= |FailureTimes(events)|
    ensures var times := FailureTimes(events); times[n - 1] - times[0] >= LeastSpan(n, c) * 1000
  {
    FailuresAreSpaced(events, c);
    SpacedSpan(FailureTimes(events), c, n);
  }

  /** One attempt at a time: 2^(n-1) - 1 seconds up to the fifth failure, then 900 seconds for each. */
  lemma {:induction false} SpanOneAtATime(n: nat)
    requires n >= 1
    ensures n <= 5 ==> LeastSpan(n, 1) == Pow2(n - 1) - 1
    ensures n >= 5 ==> LeastSpan(n, 1) == 15 + 900 * (n - 5)
  {
    if n > 1 {
      SpanOneAtATime(n - 1);
    }
    assert Pow2(0) == 1 && Pow2(1) == 2 && Pow2(2) == 4 && Pow2(3) == 8 && Pow2(4) == 16;
  }

  /** From the fifth failure on, no `c` failures come in less than 900 seconds. */
  lemma {:induction false} SpanOverlapping(c: nat, n: nat, k: nat)
    requires c >= 1 && n >= 5 + k * c
    ensures LeastSpan(n, c) >= 900 * k
  {
    if k > 0 {
      assert k * c == (k - 1) * c + c;
      SpanOverlapping(c, n - c, k - 1);
    }
  }

  // ---------------------------------------------------------------------------
  // Building runs
  // ---------------------------------------------------------------------------

  /** `more` is a run, and as well ordered as `events`. */
  ghost predicate Follows(events: seq<Event>, more: seq<Event>, c: nat) {
    && IsRun(more, c)
    && (InOrder(events) ==> InOrder(more)) && (NoneCutOff(events) ==> NoneCutOff(more))
  }

  lemma Extend(events: seq<Event>, e: Event, c: nat)
    requires IsRun(events, c) && CanStep(Exec(events), e) && |Next(Exec(events), e).attempts| <= c
    ensures var more := events + [e];
      && IsRun(more, c) && Exec(more) == Next(Exec(events), e)
      && (InOrder(more) <==> InOrder(events) && StoresNext(Exec(events), e))
      && (NoneCutOff(more) <==> NoneCutOff(events) && !CutsOff(Exec(events), e))
  {
    var more := events + [e];
    assert more[..|more| - 1] == events && more[|more| - 1] == e;
    assert IsStep(events, e, c);
  }

  function CountOf(row: Option<Row>): nat {
    if row.Some? then row.value.failedCount else 0
  }

  /** Nothing is in flight and an attempt can begin at `at`. */
  ghost predicate Idle(s: Sys, at: int) {
    s.attempts == map[] && s.clock <= at && Free(s.row, at)
  }

  /** Attempts `lo` to `hi` are in flight, those below `m` counted one after another from `base` on. */
  ghost predicate Stage(s: Sys, lo: nat, m: nat, hi: nat, base: nat) {
    && |s.attempts| == hi - lo
    && (forall x :: x in s.attempts <==> lo <= x < hi)
    && (forall x :: x in s.attempts ==>
          if x < m then s.attempts[x] == Recording(base + x + 1, false) else s.attempts[x].Checking?)
  }

  function Repeat(at: int, k: nat): seq<int> {
    seq(k, i => at)
  }

  lemma RepeatMore(times: seq<int>, at: int, k: nat)
    requires k > 0
    ensures times + Repeat(at, k - 1) + [at] == times + Repeat(at, k)
  {
  }

  lemma CountMovesStage(s: Sys, m: nat, k: nat, base: nat, at: int)
    requires Stage(s, 0, m, k, base) && m < k && s.clock <= at && CountOf(s.row) == base + m
    ensures CanStep(s, Count(m, at))
    ensures Stage(Next(s, Count(m, at)), 0, m + 1, k, base) && CountOf(Next(s, Count(m, at)).row) == base + m + 1
  {
  }

  lemma StoreMovesStage(s: Sys, m: nat, k: nat, base: nat, at: int)
    requires Stage(s, m, k, k, base) && m < k && s.clock <= at && CountOf(s.row) == base + k
    ensures CanStep(s, Store(m, at)) && StoresNext(s, Store(m, at))
    ensures var s' := Next(s, Store(m, at));
      && Stage(s', m + 1, k, k, base) && s'.failures == s.failures
      && StoredLast(s'.row, base + m + 1, at)
  {
  }

  lemma SameTimes(events: seq<Event>, more: seq<Event>)
    requires Exec(more).failures == Exec(events).failures
    ensures FailureTimes(more) == FailureTimes(events)
  {
  }

  lemma MoreTimes(events: seq<Event>, more: seq<Event>, f: Failed)
    requires Exec(more).failures == Exec(events).failures + [f]
    ensures FailureTimes(more) == FailureTimes(events) + [f.at]
  {
  }

  lemma {:induction false} BeginMany(events: seq<Event>, c: nat, k: nat, at: int) returns (more: seq<Event>)
    requires IsRun(events, c) && Idle(Exec(events), at) && k <= c
    ensures Follows(events, more, c) && Stage(Exec(more), 0, 0, k, 0) && Exec(more).clock <= at
    ensures Exec(more).row == Exec(events).row && Exec(more).failures == Exec(events).failures
  {
    if k == 0 {
      more := events;
    } else {
      var front := BeginMany(events, c, k - 1, at);
      Extend(front, Begin(k - 1, at), c);
      more := front + [Begin(k - 1, at)];
    }
  }

  lemma {:induction false} CountMany(events: seq<Event>, c: nat, m: nat, k: nat, base: nat, at: int)
    returns (more: seq<Event>)
    requires IsRun(events, c) && Stage(Exec(events), 0, 0, k, base) && m <= k <= c
    requires Exec(events).clock <= at && CountOf(Exec(events).row) == base
    ensures Follows(events, more, c) && Stage(Exec(more), 0, m, k, base) && Exec(more).clock <= at
    ensures CountOf(Exec(more).row) == base + m
    ensures FailureTimes(more) == FailureTimes(events) + Repeat(at, m)
  {
    if m == 0 {
      more := events;
    } else {
      var front := CountMany(events, c, m - 1, k, base, at);
      CountMovesStage(Exec(front), m - 1, k, base, at);
      Extend(front, Count(m - 1, at), c);
      more := front + [Count(m - 1, at)];
      MoreTimes(front, more, Failed(at, Exec(front).slips));
      RepeatMore(FailureTimes(events), at, m);
    }
  }

  /** The row is free from `deadline` on and not before. */
  ghost predicate FreeFrom(row: Option<Row>, deadline: int) {
    forall t :: Free(row, t) <==> t >= deadline
  }

  /** The deadline of failure `count` was stored last. */
  ghost predicate StoredLast(row: Option<Row>, count: nat, at: int) {
    exists before :: row == Some(AfterStore(before, count, at))
  }

  lemma StoreSettles(row: Option<Row>, count: nat, at: int)
    requires StoredLast(row, count, at)
    ensures FreeFrom(row, at + WaitAfter(count) * 1000)
  {
  }

  lemma StoreOne(events: seq<Event>, c: nat, m: nat, k: nat, base: nat, at: int) returns (more: seq<Event>)
    requires IsRun(events, c) && Stage(Exec(events), m, k, k, base) && m < k <= c
    requires Exec(events).clock <= at && CountOf(Exec(events).row) == base + k
    ensures Follows(events, more, c) && Stage(Exec(more), m + 1, k, k, base) && Exec(more).clock <= at
    ensures CountOf(Exec(more).row) == base + k && FailureTimes(more) == FailureTimes(events)
    ensures StoredLast(Exec(more).row, base + m + 1, at)
  {
    StoreMovesStage(Exec(events), m, k, base, at);
    Extend(events, Store(m, at), c);
    more := events + [Store(m, at)];
    SameTimes(events, more);
  }

  lemma {:induction false} StoreMany(events: seq<Event>, c: nat, m: nat, k: nat, base: nat, at: int)
    returns (more: seq<Event>)
    requires IsRun(events, c) && Stage(Exec(events), 0, k, k, base) && m <= k <= c
    requires Exec(events).clock <= at && CountOf(Exec(events).row) == base + k
    ensures Follows(events, more, c) && Stage(Exec(more), m, k, k, base) && Exec(more).clock <= at
    ensures CountOf(Exec(more).row) == base + k && FailureTimes(more) == FailureTimes(events)
    ensures m > 0 ==> StoredLast(Exec(more).row, base + m, at)
  {
    if m == 0 {
      more := events;
    } else {
      var front := StoreMany(events, c, m - 1, k, base, at);
      more := StoreOne(front, c, m - 1, k, base, at);
    }
  }

  /** Nothing is in flight, and the next attempt can begin `wait` seconds after `at`. */
  ghost predicate Settled(events: seq<Event>, at: int, wait: nat) {
    var s := Exec(events);
    s.attempts == map[] && s.clock <= at && FreeFrom(s.row, at + wait * 1000)
  }

  lemma AllStored(events: seq<Event>, base: nat, k: nat, at: int)
    requires Stage(Exec(events), k, k, k, base) && Exec(events).clock <= at
    requires StoredLast(Exec(events).row, base + k, at)
    ensures Settled(events, at, WaitAfter(base + k))
  {
    assert Exec(events).attempts == map[];
    StoreSettles(Exec(events).row, base + k, at);
  }

  lemma RoundCounted(events: seq<Event>, c: nat, k: nat, at: int) returns (counted: seq<Event>)
    requires IsRun(events, c) && Idle(Exec(events), at) && 1 <= k <= c
    ensures var base := |FailureTimes(events)|;
      && Follows(events, counted, c) && Stage(Exec(counted), 0, k, k, base) && Exec(counted).clock <= at
      && CountOf(Exec(counted).row) == base + k
    ensures FailureTimes(counted) == FailureTimes(events) + Repeat(at, k)
  {
    RunKeepsInv(events, c);
    var begun := BeginMany(events, c, k, at);
    SameTimes(events, begun);
    counted := CountMany(begun, c, k, k, |FailureTimes(events)|, at);
  }

  /** `k` failures at once, stored in order. */
  lemma Round(events: seq<Event>, c: nat, k: nat, at: int) returns (more: seq<Event>)
    requires IsRun(events, c) && Idle(Exec(events), at) && 1 <= k <= c
    ensures Follows(events, more, c) && FailureTimes(more) == FailureTimes(events) + Repeat(at, k)
    ensures Settled(more, at, WaitAfter(|FailureTimes(more)|))
  {
    var base := |FailureTimes(events)|;
    var counted := RoundCounted(events, c, k, at);
    more := StoreMany(counted, c, k, k, base, at);
    assert |FailureTimes(more)| == base + k;
    AllStored(more, base, k, at);
  }

  /** A user who retries at every deadline with `c` attempts at once fails exactly that often. */
  lemma {:induction false} FastestRun(c: nat, n: nat) returns (events: seq<Event>)
    requires c >= 1 && n >= 1
    ensures IsRun(events, c) && InOrder(events) && |FailureTimes(events)| == n
    ensures FailureTimes(events)[0] == 0 && FailureTimes(events)[n - 1] == LeastSpan(n, c) * 1000
    ensures Settled(events, LeastSpan(n, c) * 1000, WaitAfter(n))
  {
    if n <= c {
      events := Round([], c, n, 0);
    } else {
      var front := FastestRun(c, n - c);
      events := Round(front, c, c, LeastSpan(n, c) * 1000);
    }
  }

  // ---------------------------------------------------------------------------
  // Runs that lose a wait
  // ---------------------------------------------------------------------------

  /** Two failures at once, the second of which stores its deadline first. */
  lemma Swapped(events: seq<Event>, c: nat, at: int) returns (more: seq<Event>)
    requires IsRun(events, c) && Idle(Exec(events), at) && c >= 2
    ensures IsRun(more, c) && (NoneCutOff(events) ==> NoneCutOff(more))
    ensures FailureTimes(more) == FailureTimes(events) + [at, at]
    ensures Settled(more, at, WaitAfter(|FailureTimes(more)| - 1))
  {
    var base := |FailureTimes(events)|;
    var counted := RoundCounted(events, c, 2, at);
    assert Repeat(at, 2) == [at, at];
    SecondStored(Exec(counted), base, at);
    Extend(counted, Store(1, at), c);
    var stored := counted + [Store(1, at)];
    FirstStored(Exec(stored), base, at);
    Extend(stored, Store(0, at), c);
    more := stored + [Store(0, at)];
    SameTimes(counted, more);
    StoreSettles(Exec(more).row, base + 1, at);
    assert |FailureTimes(more)| - 1 == base + 1;
  }

  lemma SecondStored(s: Sys, base: nat, at: int)
    requires Stage(s, 0, 2, 2, base) && s.clock <= at && s.row.Some?
    ensures CanStep(s, Store(1, at)) && !CutsOff(s, Store(1, at))
    ensures var s' := Next(s, Store(1, at));
      && s'.attempts == map[0 := Recording(base + 1, false)] && s'.clock == at && s'.row.Some?
      && s'.failures == s.failures
  {
  }

  lemma FirstStored(s: Sys, base: nat, at: int)
    requires s.attempts == map[0 := Recording(base + 1, false)] && s.clock == at && s.row.Some?
    ensures CanStep(s, Store(0, at)) && !CutsOff(s, Store(0, at))
    ensures var s' := Next(s, Store(0, at));
      && s'.attempts == map[] && s'.clock == at && s'.failures == s.failures && StoredLast(s'.row, base + 1, at)
  {
  }

  /** Two attempts at once are enough to erase the lock of the fifth failure: seven failures in 11 seconds. */
  lemma LockIsErased() returns (events: seq<Event>)
    ensures IsRun(events, 2) && NoneCutOff(events)
    ensures FailureTimes(events) == [0, 1000, 1000, 3000, 3000, 11_000, 11_000]
  {
    var first := Round([], 2, 1, 0);
    assert Pow2(0) == 1 && Pow2(1) == 2 && Pow2(3) == 8;
    var third := Swapped(first, 2, 1000);
    assert FailureTimes(third) == [0, 1000, 1000];
    var fifth := Swapped(third, 2, 3000);
    events := Swapped(fifth, 2, 11_000);
  }

  /** Whatever more than one attempt can be in flight, some run is not spaced. */
  lemma WaitIsCutShort(c: nat) returns (events: seq<Event>)
    requires c >= 2
    ensures IsRun(events, c) && NoneCutOff(events) && !Spaced(FailureTimes(events), c)
  {
    assert Pow2(0) == 1 && Pow2(1) == 2;
    var two := Swapped([], c, 0);
    var begun := BeginMany(two, c, c, 1000);
    RunKeepsInv(two, c);
    assert FailureTimes(begun) == FailureTimes(two) == [0, 0];
    events := CountMany(begun, c, c, c, 2, 1000);
    var times := FailureTimes(events);
    assert times[c + 1] - times[1] == 1000 && WaitAfter(2) == 2;
  }

  ghost predicate AlwaysSpaced(c: nat)
    requires c >= 1
  {
    forall events :: IsRun(events, c) && NoneCutOff(events) ==> Spaced(FailureTimes(events), c)
  }

  /** While no record is cut off, spacing is kept in every run exactly when attempts do not overlap. */
  lemma SpacedExactlyOneAtATime(c: nat)
    requires c >= 1
    ensures AlwaysSpaced(c) <==> c == 1
  {
    if c == 1 {
      forall events | IsRun(events, c) && NoneCutOff(events) ensures Spaced(FailureTimes(events), c) {
        OneAtATimeIsInOrder(events);
        FailuresAreSpaced(events, c);
      }
    } else {
      var events := WaitIsCutShort(c);
    }
  }

  /** A record that is cut off imposes no wait, even for attempts one after another. */
  lemma CutOffImposesNothing() returns (events: seq<Event>)
    ensures IsRun(events, 1) && FailureTimes(events) == [0, 1000, 1000]
  {
    var first := Round([], 1, 1, 0);
    assert Pow2(0) == 1;
    RunKeepsInv(first, 1);
    var begun := BeginMany(first, 1, 1, 1000);
    Extend(begun, Count(0, 1000), 1);
    var counted := begun + [Count(0, 1000)];
    Extend(counted, Drop(0, 1000), 1);
    var cut := counted + [Drop(0, 1000)];
    var again := BeginMany(cut, 1, 1, 1000);
    events := CountMany(again, 1, 1, 1, 2, 1000);
  }
}
