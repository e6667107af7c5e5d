/**
 Hold calls, ingestion and any number of scheduler runs, interleaved in any order. A scan's
 snapshot may be arbitrarily stale when its rows are deleted one by one.
 */
module RetentionRuns {
  import opened Wrappers
  import opened LegalHolds
  import opened Retention

  datatype Action =
    | HoldCall(op: Op)
    | Ingest(id: string, entity: Entity)
    | Scan(rows: seq<string>)
    | DeleteRow(id: string)

  datatype Event = Event(at: int, action: Action)

  /** What a step did, one entry a step. */
  datatype Entry =
    | Placed(holdId: string, tenantId: string)
    | Requested(removalId: string, holdId: string, actorId: string)
    | CoApproved(removalId: string, holdId: string, actorId: string)
    | DeletedRow(id: string, entity: Entity, at: int)
    | Nothing

  /** `scanned` are the rows of all snapshots so far, `used` all entity ids ever drawn. */
  datatype Sys = Sys(db: Db, scanned: set<string>, used: set<string>, clock: int, log: seq<Entry>)

  function Start(policies: map<string, int>): Sys {
    Sys(Db(policies, map[], Tables(map[], map[])), {}, {}, 0, [])
  }

  /**
   The clock does not run backwards; entity ids are fresh and tenant ids not empty; a scan
   returns eligible rows; the scheduler deletes rows of a snapshot only.
   */
  ghost predicate CanStep(s: Sys, e: Event) {
    && e.at >= s.clock
    && match e.action
       case HoldCall(_) => true
       case Ingest(id, entity) => id !in s.used && entity.tenantId != Some("")
       case Scan(rows) => forall i :: 0 <= i < |rows| ==> Eligible(s.db, rows[i], e.at)
       case DeleteRow(id) => id in s.scanned
  }

  function EntryOf(s: Sys, e: Event): Entry {
    match e.action
    case HoldCall(op) =>
      if Refusal(s.db.tables, op).Some? then Nothing
      else (match op
            case Place(h, tenant, _) => Placed(h, tenant)
            case RequestRemoval(r, h, actor) => Requested(r, h, actor.id)
            case ApproveRemoval(r, actor) => CoApproved(r, s.db.tables.removals[r].holdId, actor.id)
            case RejectRemoval(_, _) => Nothing)
    case DeleteRow(id) =>
      if Delete(s.db, id, e.at).1 == Deleted then DeletedRow(id, s.db.entities[id], e.at) else Nothing
    case _ => Nothing
  }

  function Next(s: Sys, e: Event): Sys {
    var log := s.log + [EntryOf(s, e)];
    match e.action
    case HoldCall(op) => s.(db := s.db.(tables := Step(s.db.tables, op)), clock := e.at, log := log)
    case Ingest(id, entity) =>
      s.(db := s.db.(entities := s.db.entities[id := entity]), used := s.used + {id}, clock := e.at, log := log)
    case Scan(rows) => s.(scanned := s.scanned + (set i | 0 <= i < |rows| :: rows[i]), clock := e.at, log := log)
    case DeleteRow(id) => s.(db := Delete(s.db, id, e.at).0, clock := e.at, log := log)
  }

  ghost predicate IsRun(policies: map<string, int>, events: seq<Event>)
    decreases |events|, 0
  {
    events == [] ||
    var front := events[..|events| - 1];
    IsRun(policies, front) && CanStep(Exec(policies, front), events[|events| - 1])
  }

  ghost function Exec(policies: map<string, int>, events: seq<Event>): Sys
    requires IsRun(policies, events)
    decreases |events|, 1
  {
    if events == [] then Start(policies)
    else Next(Exec(policies, events[..|events| - 1]), events[|events| - 1])
  }

  // ---------------------------------------------------------------------------
  // What every run keeps
  // ---------------------------------------------------------------------------

  /** The scanned entity's floor lies behind the clock, and it is not held itself. */
  ghost predicate Expired(s: Sys, e: Entity) {
    && e.retentionClass.Some? && e.retentionClass.value in s.db.policies
    && e.legalHold != Some(true)
    && s.clock >= FloorAt(e.createdAt, s.db.policies[e.retentionClass.value])
  }

  ghost predicate EntitiesKnown(s: Sys) {
    && (forall id :: id in s.db.entities ==> id in s.used && s.db.entities[id].tenantId != Some(""))
    && s.scanned <= s.used
    && (forall id :: id in s.scanned && id in s.db.entities ==> Expired(s, s.db.entities[id]))
  }

  /** After entry `j`, removal `r` of hold `h` was asked for at `k` and co-approved by another actor at `l`. */
  ghost predicate LiftedBy(log: seq<Entry>, j: int, h: string, k: int, l: int) {
    && 0 <= j < k < l < |log|
    && log[k].Requested? && log[l].CoApproved?
    && log[k].holdId == h && log[l].holdId == h && log[k].removalId == log[l].removalId
    && log[k].actorId != log[l].actorId
  }

  ghost predicate Lifted(log: seq<Entry>, j: int, h: string) {
    exists k, l :: LiftedBy(log, j, h, k, l)
  }

  ghost predicate RequestedAt(log: seq<Entry>, j: int, r: string, h: string, actorId: string, k: int) {
    0 <= j < k < |log| && log[k] == Requested(r, h, actorId)
  }

  ghost predicate RequestedSince(log: seq<Entry>, j: int, r: string, h: string, actorId: string) {
    exists k :: RequestedAt(log, j, r, h, actorId, k)
  }

  /** What the tables say about a hold that was placed at entry `j`. */
  ghost predicate PlacementTold(t: Tables, log: seq<Entry>, j: int)
    requires 0 <= j < |log| && log[j].Placed?
  {
    var h := log[j].holdId;
    && h in t.holds && t.holds[h].tenantId == log[j].tenantId
    && (t.holds[h].status == Removed ==> Lifted(log, j, h))
    && (forall r :: IsPendingFor(t, r, h) ==> RequestedSince(log, j, r, h, t.removals[r].requestedBy))
  }

  ghost predicate LogTold(t: Tables, log: seq<Entry>) {
    forall j :: 0 <= j < |log| && log[j].Placed? ==> PlacementTold(t, log, j)
  }

  ghost predicate Inv(s: Sys) {
    Consistent(s.db.tables) && EntitiesKnown(s) && LogTold(s.db.tables, s.log)
  }

  lemma LiftedStays(log: seq<Entry>, e: Entry, j: int, h: string)
    requires Lifted(log, j, h)
    ensures Lifted(log + [e], j, h)
  {
    var k, l :| LiftedBy(log, j, h, k, l);
    assert LiftedBy(log + [e], j, h, k, l);
  }

  lemma RequestStays(log: seq<Entry>, e: Entry, j: int, r: string, h: string, actorId: string)
    requires RequestedSince(log, j, r, h, actorId)
    ensures RequestedSince(log + [e], j, r, h, actorId)
  {
    var k :| RequestedAt(log, j, r, h, actorId, k);
    assert RequestedAt(log + [e], j, r, h, actorId, k);
  }

  /** An entry about nothing, with the tables unchanged, tells no less. */
  lemma PlacementStays(t: Tables, log: seq<Entry>, e: Entry, j: int)
    requires 0 <= j < |log| && log[j].Placed? && PlacementTold(t, log, j)
    ensures PlacementTold(t, log + [e], j)
  {
    var h := log[j].holdId;
    if t.holds[h].status == Removed { LiftedStays(log, e, j, h); }
    forall r | IsPendingFor(t, r, h)
      ensures RequestedSince(log + [e], j, r, h, t.removals[r].requestedBy)
    {
      RequestStays(log, e, j, r, h, t.removals[r].requestedBy);
    }
  }

  lemma QuietStepKeepsLog(t: Tables, log: seq<Entry>, e: Entry)
    requires LogTold(t, log) && !e.Placed?
    ensures LogTold(t, log + [e])
  {
    forall j | 0 <= j < |log + [e]| && (log + [e])[j].Placed?
      ensures PlacementTold(t, log + [e], j)
    {
      PlacementStays(t, log, e, j);
    }
  }

  lemma PlaceTold(t: Tables, log: seq<Entry>, op: Op)
    requires Consistent(t) && LogTold(t, log) && op.Place? && Refusal(t, op).None?
    ensures LogTold(Step(t, op), log + [Placed(op.holdId, op.tenantId)])
  {
    var t', e := Step(t, op), Placed(op.holdId, op.tenantId);
    forall j | 0 <= j < |log + [e]| && (log + [e])[j].Placed?
      ensures PlacementTold(t', log + [e], j)
    {
      if j < |log| {
        PlacementStays(t, log, e, j);
        assert log[j].holdId != op.holdId;
        assert forall r :: IsPendingFor(t', r, log[j].holdId) <==> IsPendingFor(t, r, log[j].holdId);
      } else {
        assert forall r :: !IsPendingFor(t', r, op.holdId);
      }
    }
  }

  lemma RequestTold(t: Tables, log: seq<Entry>, op: Op)
    requires Consistent(t) && LogTold(t, log) && op.RequestRemoval? && Refusal(t, op).None?
    ensures LogTold(Step(t, op), log + [Requested(op.removalId, op.holdId, op.actor.id)])
  {
    var t', e := Step(t, op), Requested(op.removalId, op.holdId, op.actor.id);
    var log' := log + [e];
    forall j | 0 <= j < |log'| && log'[j].Placed?
      ensures PlacementTold(t', log', j)
    {
      var h := log[j].holdId;
      PlacementStays(t, log, e, j);
      forall r | IsPendingFor(t', r, h)
        ensures RequestedSince(log', j, r, h, t'.removals[r].requestedBy)
      {
        if r == op.removalId {
          assert RequestedAt(log', j, r, h, op.actor.id, |log|);
        } else {
          assert IsPendingFor(t, r, h);
        }
      }
    }
  }

  lemma ApproveTold(t: Tables, log: seq<Entry>, op: Op)
    requires Consistent(t) && LogTold(t, log) && op.ApproveRemoval? && Refusal(t, op).None?
    ensures LogTold(Step(t, op), log + [CoApproved(op.removalId, t.removals[op.removalId].holdId, op.actor.id)])
  {
    var request := t.removals[op.removalId];
    var t', e := Step(t, op), CoApproved(op.removalId, request.holdId, op.actor.id);
    var log' := log + [e];
    forall j | 0 <= j < |log'| && log'[j].Placed?
      ensures PlacementTold(t', log', j)
    {
      var h := log[j].holdId;
      PlacementStays(t, log, e, j);
      assert forall r :: IsPendingFor(t', r, h) ==> IsPendingFor(t, r, h) && t'.removals[r] == t.removals[r];
      if h == request.holdId {
        assert IsPendingFor(t, op.removalId, h);
        var k :| RequestedAt(log, j, op.removalId, h, request.requestedBy, k);
        assert LiftedBy(log', j, h, k, |log|);
      }
    }
  }

  lemma RejectTold(t: Tables, log: seq<Entry>, op: Op)
    requires Consistent(t) && LogTold(t, log) && op.RejectRemoval? && Refusal(t, op).None?
    ensures LogTold(Step(t, op), log + [Nothing])
  {
    var t', e := Step(t, op), Nothing;
    var log' := log + [e];
    forall j | 0 <= j < |log'| && log'[j].Placed?
      ensures PlacementTold(t', log', j)
    {
      PlacementStays(t, log, e, j);
      assert forall r :: IsPendingFor(t', r, log[j].holdId) ==>
        IsPendingFor(t, r, log[j].holdId) && t'.removals[r] == t.removals[r];
    }
  }

  lemma HoldCallTold(s: Sys, e: Event)
    requires Inv(s) && e.action.HoldCall?
    ensures LogTold(Next(s, e).db.tables, Next(s, e).log)
  {
    var t, op := s.db.tables, e.action.op;
    if Refusal(t, op).Some? {
      QuietStepKeepsLog(t, s.log, Nothing);
    } else {
      match op
      case Place(_, _, _) => PlaceTold(t, s.log, op);
      case RequestRemoval(_, _, _) => RequestTold(t, s.log, op);
      case ApproveRemoval(_, _) => ApproveTold(t, s.log, op);
      case RejectRemoval(_, _) => RejectTold(t, s.log, op);
    }
  }

  lemma EntitiesStayKnown(s: Sys, e: Event)
    requires EntitiesKnown(s) && CanStep(s, e)
    ensures EntitiesKnown(Next(s, e))
  {
  }

  lemma StepKeepsInv(s: Sys, e: Event)
    requires Inv(s) && CanStep(s, e)
    ensures Inv(Next(s, e))
  {
    EntitiesStayKnown(s, e);
    if e.action.HoldCall? {
      StepKeepsConsistent(s.db.tables, e.action.op);
      HoldCallTold(s, e);
    } else {
      QuietStepKeepsLog(s.db.tables, s.log, EntryOf(s, e));
    }
  }

  lemma {:induction false} RunKeepsInv(policies: map<string, int>, events: seq<Event>)
    requires IsRun(policies, events)
    ensures Inv(Exec(policies, events)) && Exec(policies, events).db.policies == policies
    ensures |Exec(policies, events).log| == |events|
  {
    if events != [] {
      var front := events[..|events| - 1];
      RunKeepsInv(policies, front);
      StepKeepsInv(Exec(policies, front), events[|events| - 1]);
    }
  }

  // ---------------------------------------------------------------------------
  // Safety over whole runs
  // ---------------------------------------------------------------------------

  /**
   Entry `i` deletes an entity whose floor had passed, and every hold placed before on its
   tenant had been lifted: asked for by one actor and co-approved by another, in between.
   */
  ghost predicate SafeDeletion(policies: map<string, int>, log: seq<Entry>, i: int)
    requires 0 <= i < |log| && log[i].DeletedRow?
  {
    var e := log[i].entity;
    && e.retentionClass.Some? && e.retentionClass.value in policies
    && log[i].at >= FloorAt(e.createdAt, policies[e.retentionClass.value])
    && e.legalHold != Some(true)
    && forall j :: 0 <= j < i && log[j].Placed? && e.tenantId == Some(log[j].tenantId) ==>
         Lifted(log[..i], j, log[j].holdId)
  }

  lemma DeleteStepIsSafe(s: Sys, e: Event)
    requires Inv(s) && CanStep(s, e) && EntryOf(s, e).DeletedRow?
    ensures SafeDeletion(s.db.policies, Next(s, e).log, |s.log|)
  {
    var log, i := Next(s, e).log, |s.log|;
    var entity := s.db.entities[e.action.id];
    DeleteExactly(s.db, e.action.id, e.at);
    assert log[..i] == s.log;
    forall j | 0 <= j < i && log[j].Placed? && entity.tenantId == Some(log[j].tenantId)
      ensures Lifted(log[..i], j, log[j].holdId)
    {
      assert PlacementTold(s.db.tables, s.log, j);
    }
  }

  lemma SafeStays(policies: map<string, int>, log: seq<Entry>, e: Entry, i: int)
    requires 0 <= i < |log| && log[i].DeletedRow? && SafeDeletion(policies, log, i)
    ensures SafeDeletion(policies, log + [e], i)
  {
    assert (log + [e])[..i] == log[..i];
  }

  /** Every deletion of every run is safe, however stale its snapshot was. */
  lemma {:induction false} EveryDeletionIsSafe(policies: map<string, int>, events: seq<Event>, i: nat)
    requires IsRun(policies, events) && i < |Exec(policies, events).log|
    requires Exec(policies, events).log[i].DeletedRow?
    ensures SafeDeletion(policies, Exec(policies, events).log, i)
  {
    var front := events[..|events| - 1];
    var s := Exec(policies, front);
    RunKeepsInv(policies, front);
    if i < |s.log| {
      EveryDeletionIsSafe(policies, front, i);
      SafeStays(policies, s.log, EntryOf(s, events[|events| - 1]), i);
    } else {
      DeleteStepIsSafe(s, events[|events| - 1]);
    }
  }

  /**
   A row of a snapshot that is still there is deleted exactly when no active or pending hold
   is on its tenant at that moment.
   */
  lemma SnapshotRowIsDeletedExactly(policies: map<string, int>, events: seq<Event>, id: string, at: int)
    requires IsRun(policies, events)
    requires var s := Exec(policies, events); id in s.scanned && id in s.db.entities && at >= s.clock
    ensures var s := Exec(policies, events);
      Delete(s.db, id, at).1 == Deleted <==>
        s.db.entities[id].tenantId.None? || !HasActiveLegalHold(s.db.tables, s.db.entities[id].tenantId.value)
  {
    RunKeepsInv(policies, events);
    DeleteExactly(Exec(policies, events).db, id, at);
  }

  /** One scheduler run without interference is such a run: a scan, then its deletions. */
  lemma {:induction false} SchedulerIsARun(policies: map<string, int>, events: seq<Event>, rows: seq<string>,
                                           now: int, clock: nat -> int, n: nat) returns (all: seq<Event>)
    requires IsRun(policies, events) && now >= Exec(policies, events).clock && n <= |rows|
    requires IsOldestFirst(Exec(policies, events).db, rows, now)
    requires forall i: nat :: clock(i) >= now
    requires forall i: nat, j: nat :: i <= j ==> clock(i) <= clock(j)
    ensures events <= all && IsRun(policies, all)
    ensures Exec(policies, all).db == DeleteRows(Exec(policies, events).db, rows, clock, n)
    ensures Exec(policies, all).clock == if n == 0 then now else clock(n - 1)
    ensures forall i :: 0 <= i < |rows| ==> rows[i] in Exec(policies, all).scanned
  {
    if n == 0 {
      all := events + [Event(now, Scan(rows))];
      assert all[..|events|] == events;
    } else {
      var before := SchedulerIsARun(policies, events, rows, now, clock, n - 1);
      all := before + [Event(clock(n - 1), DeleteRow(rows[n - 1]))];
      assert all[..|before|] == before;
    }
  }
}
