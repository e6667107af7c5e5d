/**
 The retention engine and its scheduler: a scan picks expired entities, then each one is
 deleted after a second check of its tenant's legal holds and of its retention floor.
 Times are in milliseconds.
 */
module Retention {
  import opened Wrappers
  import opened LegalHolds

  const DAY_MS: int := 86_400_000

  datatype Entity = Entity(
    entityType: string, tenantId: Option<string>, retentionClass: Option<string>,
    createdAt: int, legalHold: Option<bool>)

  /** The policy catalogue with its floors in days, the entities and the legal-hold tables. */
  datatype Db = Db(policies: map<string, int>, entities: map<string, Entity>, tables: Tables)

  function FloorAt(createdAt: int, floorDays: int): int {
    createdAt + floorDays * DAY_MS
  }

  // ---------------------------------------------------------------------------
  // The check before a deletion
  // ---------------------------------------------------------------------------

  datatype FloorCheck = FloorCheck(blocked: bool, eligibleAt: Option<int>, legalHoldActive: bool)

  /** A JavaScript string that is present and not empty. */
  predicate Truthy(s: Option<string>) {
    s.Some? && s.value != ""
  }

  function IsWithinRetentionFloor(db: Db, id: string, now: int): FloorCheck {
    if id !in db.entities then FloorCheck(false, None, false)
    else
      var e := db.entities[id];
      if Truthy(e.tenantId) && HasActiveLegalHold(db.tables, e.tenantId.value) then FloorCheck(true, None, true)
      else if !Truthy(e.retentionClass) then FloorCheck(false, None, false)
      else if e.retentionClass.value !in db.policies then FloorCheck(false, None, false)
      else
        var eligibleAt := FloorAt(e.createdAt, db.policies[e.retentionClass.value]);
        FloorCheck(now < eligibleAt, Some(eligibleAt), false)
  }

  /** The row's tenant is named and some hold on it is not removed. */
  ghost predicate IsHeld(db: Db, id: string) {
    && id in db.entities && Truthy(db.entities[id].tenantId)
    && HasActiveLegalHold(db.tables, db.entities[id].tenantId.value)
  }

  ghost predicate IsFloorOf(db: Db, id: string, floorDays: int) {
    && id in db.entities && Truthy(db.entities[id].retentionClass)
    && db.entities[id].retentionClass.value in db.policies
    && db.policies[db.entities[id].retentionClass.value] == floorDays
  }

  ghost predicate HasPolicy(db: Db, id: string) {
    exists floorDays :: IsFloorOf(db, id, floorDays)
  }

  lemma FloorCheckMeans(db: Db, id: string, now: int)
    ensures var r := IsWithinRetentionFloor(db, id, now);
      && (r.legalHoldActive <==> IsHeld(db, id))
      && (r.legalHoldActive ==> forall t :: IsWithinRetentionFloor(db, id, t).blocked)
      && (!r.legalHoldActive ==> forall t ::
            IsWithinRetentionFloor(db, id, t).blocked <==> r.eligibleAt.Some? && t < r.eligibleAt.value)
      && (r.eligibleAt.Some? <==> !r.legalHoldActive && HasPolicy(db, id))
      && (r.eligibleAt.Some? ==> exists floorDays ::
            IsFloorOf(db, id, floorDays) && r.eligibleAt.value - db.entities[id].createdAt == floorDays * DAY_MS)
  {
    if id in db.entities && Truthy(db.entities[id].retentionClass)
       && db.entities[id].retentionClass.value in db.policies
    {
      assert IsFloorOf(db, id, db.policies[db.entities[id].retentionClass.value]);
    }
  }

  datatype Outcome = Deleted | AlreadyGone | HoldInForce | FloorNotReached(eligibleAt: int)

  /** `deleteEntityPastRetention` as one atomic step. */
  function Delete(db: Db, id: string, now: int): (Db, Outcome) {
    if id !in db.entities then (db, AlreadyGone)
    else
      var check := IsWithinRetentionFloor(db, id, now);
      if check.blocked && check.legalHoldActive then (db, HoldInForce)
      else if check.blocked && check.eligibleAt.Some? then (db, FloorNotReached(check.eligibleAt.value))
      else (db.(entities := db.entities - {id}), Deleted)
  }

  /** The deletion is refused exactly by a hold on the tenant or a floor still ahead. */
  lemma DeleteExactly(db: Db, id: string, now: int)
    requires id in db.entities
    ensures var e := db.entities[id];
      Delete(db, id, now).1 == Deleted <==>
        && !(Truthy(e.tenantId) && HasActiveLegalHold(db.tables, e.tenantId.value))
        && !(Truthy(e.retentionClass) && e.retentionClass.value in db.policies
             && now < FloorAt(e.createdAt, db.policies[e.retentionClass.value]))
    ensures Delete(db, id, now).1 != Deleted ==> Delete(db, id, now).0 == db
    ensures Delete(db, id, now).1 == Deleted ==>
      Delete(db, id, now).0 == db.(entities := map k | k in db.entities && k != id :: db.entities[k])
  {
    assert db.entities - {id} == map k | k in db.entities && k != id :: db.entities[k];
  }

  /** With the empty tenant id, a row whose floor has passed is deleted although a hold is on its tenant. */
  lemma EmptyTenantEscapesHold(db: Db, id: string, floorDays: int, now: int)
    requires id in db.entities && db.entities[id].tenantId == Some("") && HasActiveLegalHold(db.tables, "")
    requires IsFloorOf(db, id, floorDays) && now >= db.entities[id].createdAt + floorDays * DAY_MS
    ensures Delete(db, id, now) == (db.(entities := db.entities - {id}), Deleted)
  {
    assert !IsWithinRetentionFloor(db, id, now).blocked;
  }

  /** With a hold on its tenant under any other name, the same row is kept. */
  lemma NamedTenantIsHeld(db: Db, id: string, now: int)
    requires id in db.entities && Truthy(db.entities[id].tenantId)
    requires HasActiveLegalHold(db.tables, db.entities[id].tenantId.value)
    ensures Delete(db, id, now) == (db, HoldInForce) && IsHeld(db, id)
  {
    FloorCheckMeans(db, id, now);
  }

  // ---------------------------------------------------------------------------
  // The scan
  // ---------------------------------------------------------------------------

  predicate Eligible(db: Db, id: string, now: int) {
    id in db.entities &&
    var e := db.entities[id];
    && e.retentionClass.Some? && e.retentionClass.value in db.policies
    && e.legalHold != Some(true)
    && now >= FloorAt(e.createdAt, db.policies[e.retentionClass.value])
    && (e.tenantId.None? || !HasActiveLegalHold(db.tables, e.tenantId.value))
  }

  ghost function EligibleIds(db: Db, now: int): set<string> {
    set id | id in db.entities && Eligible(db, id, now)
  }

  ghost predicate DistinctRows(rows: seq<string>) {
    forall i, j :: 0 <= i < j < |rows| ==> rows[i] != rows[j]
  }

  /** Oldest first, and nothing left out is older than what was taken. */
  ghost predicate IsOldestFirst(db: Db, rows: seq<string>, now: int) {
    && (forall i :: 0 <= i < |rows| ==> Eligible(db, rows[i], now))
    && DistinctRows(rows)
    && (forall i, j :: 0 <= i < j < |rows| ==>
          db.entities[rows[i]].createdAt <= db.entities[rows[j]].createdAt)
    && (forall i, id :: 0 <= i < |rows| && id in EligibleIds(db, now) && id !in rows ==>
          db.entities[rows[i]].createdAt <= db.entities[id].createdAt)
  }

  // ---------------------------------------------------------------------------
  // The scheduler loop
  // ---------------------------------------------------------------------------

  datatype RowResult = RowResult(entityId: string, deleted: bool)

  datatype Summary = Summary(deletedCount: nat, skippedCount: nat, results: seq<RowResult>)

  /** The database after the first `n` rows were tried, row `i` at time `clock(i)`. */
  function DeleteRows(db: Db, rows: seq<string>, clock: nat -> int, n: nat): Db
    requires n <= |rows|
  {
    if n == 0 then db else Delete(DeleteRows(db, rows, clock, n - 1), rows[n - 1], clock(n - 1)).0
  }

  /** A row counts as deleted unless its deletion threw; a row already gone counts too. */
  predicate CountsAsDeleted(outcome: Outcome) {
    outcome == Deleted || outcome == AlreadyGone
  }

  /** What became of the first `n` rows, in order. */
  function ResultsOf(db: Db, rows: seq<string>, clock: nat -> int, n: nat): seq<RowResult>
    requires n <= |rows|
  {
    if n == 0 then []
    else
      var outcome := Delete(DeleteRows(db, rows, clock, n - 1), rows[n - 1], clock(n - 1)).1;
      ResultsOf(db, rows, clock, n - 1) + [RowResult(rows[n - 1], CountsAsDeleted(outcome))]
  }

  function CountDeleted(results: seq<RowResult>, deleted: bool): nat {
    if results == [] then 0
    else CountDeleted(results[..|results| - 1], deleted) + (if results[|results| - 1].deleted == deleted then 1 else 0)
  }

  lemma {:induction false} CountsAddUp(results: seq<RowResult>)
    ensures CountDeleted(results, true) + CountDeleted(results, false) == |results|
  {
    if results != [] { CountsAddUp(results[..|results| - 1]); }
  }

  /**
   For rows without repetition: each result is about its row and says whether it is gone afterwards, and
   nothing else in the table changes.
   */
  ghost predicate ResultsAreTrue(before: map<string, Entity>, after: map<string, Entity>,
                                 rows: seq<string>, results: seq<RowResult>) {
    && |results| == |rows|
    && (forall i :: 0 <= i < |rows| ==>
          results[i].entityId == rows[i] && (results[i].deleted <==> rows[i] !in after))
    && (forall id :: id in after ==> id in before && after[id] == before[id])
    && (forall id :: id in before && id !in rows ==> id in after)
  }

  lemma {:induction false} ResultsMean(db: Db, rows: seq<string>, clock: nat -> int, n: nat)
    requires n <= |rows| && DistinctRows(rows)
    ensures ResultsAreTrue(db.entities, DeleteRows(db, rows, clock, n).entities, rows[..n],
                           ResultsOf(db, rows, clock, n))
  {
    if n > 0 {
      ResultsMean(db, rows, clock, n - 1);
      var prev, id := DeleteRows(db, rows, clock, n - 1), rows[n - 1];
      NextIsNew(rows, n);
      OneResult(db.entities, prev, rows[..n - 1], ResultsOf(db, rows, clock, n - 1), id, clock(n - 1));
    }
  }

  lemma NextIsNew(rows: seq<string>, n: nat)
    requires DistinctRows(rows) && 0 < n <= |rows|
    ensures rows[n - 1] !in rows[..n - 1] && rows[..n] == rows[..n - 1] + [rows[n - 1]]
  {
  }

  lemma OneResult(before: map<string, Entity>, prev: Db, rows: seq<string>, results: seq<RowResult>,
                  id: string, now: int)
    requires ResultsAreTrue(before, prev.entities, rows, results) && id !in rows
    ensures var (next, outcome) := Delete(prev, id, now);
      ResultsAreTrue(before, next.entities, rows + [id], results + [RowResult(id, CountsAsDeleted(outcome))])
  {
    DeleteIsLocal(prev, id, now);
  }

  /** A deletion counts exactly if the row is not there afterwards, and touches no other row. */
  lemma DeleteIsLocal(db: Db, id: string, now: int)
    ensures var (next, outcome) := Delete(db, id, now);
      && (CountsAsDeleted(outcome) <==> id !in next.entities)
      && (next.entities == db.entities || next.entities == db.entities - {id})
      && next.policies == db.policies && next.tables == db.tables
  {
  }

  /** The rows that are gone are as many as the results say. */
  lemma {:induction false} CountsAreTrue(db: Db, rows: seq<string>, clock: nat -> int, n: nat)
    requires n <= |rows| && DistinctRows(rows) && forall i :: 0 <= i < |rows| ==> rows[i] in db.entities
    ensures |DeleteRows(db, rows, clock, n).entities| + CountDeleted(ResultsOf(db, rows, clock, n), true)
      == |db.entities|
  {
    if n > 0 {
      CountsAreTrue(db, rows, clock, n - 1);
      var prev, id := DeleteRows(db, rows, clock, n - 1), rows[n - 1];
      StillThere(db, rows, clock, n);
      OneMoreCounted(prev, id, clock(n - 1), ResultsOf(db, rows, clock, n - 1));
    }
  }

  lemma OneMoreCounted(prev: Db, id: string, now: int, results: seq<RowResult>)
    requires id in prev.entities
    ensures var (next, outcome) := Delete(prev, id, now);
      |next.entities| + CountDeleted(results + [RowResult(id, CountsAsDeleted(outcome))], true)
        == |prev.entities| + CountDeleted(results, true)
  {
    DeleteIsLocal(prev, id, now);
    OneLess(prev.entities, id);
    CountOneMore(results, RowResult(id, CountsAsDeleted(Delete(prev, id, now).1)));
  }

  lemma OneLess(entities: map<string, Entity>, id: string)
    requires id in entities
    ensures |entities - {id}| == |entities| - 1
  {
    assert (entities - {id}).Keys == entities.Keys - {id};
  }

  lemma CountOneMore(results: seq<RowResult>, r: RowResult)
    ensures CountDeleted(results + [r], true) == CountDeleted(results, true) + (if r.deleted then 1 else 0)
  {
    assert (results + [r])[..|results|] == results;
  }

  // ---------------------------------------------------------------------------
  // Nothing that is due is left
  // ---------------------------------------------------------------------------

  /** The floor of the row's policy has passed, and neither the row nor its tenant is held. */
  ghost predicate IsDue(db: Db, id: string, now: int) {
    && (exists floorDays ::
          IsFloorOf(db, id, floorDays) && now - db.entities[id].createdAt >= floorDays * DAY_MS)
    && db.entities[id].legalHold != Some(true)
    && forall tenant :: db.entities[id].tenantId == Some(tenant) ==> !HasActiveLegalHold(db.tables, tenant)
  }

  lemma DueIsEligible(db: Db, id: string, now: int)
    requires IsDue(db, id, now)
    ensures id in EligibleIds(db, now)
  {
  }

  /** A row that was eligible is deleted later, whatever other rows went before. */
  lemma EligibleIsDeleted(db: Db, later: Db, id: string, now: int, t: int)
    requires Eligible(db, id, now) && now <= t
    requires later.policies == db.policies && later.tables == db.tables
    requires id in later.entities && later.entities[id] == db.entities[id]
    ensures Delete(later, id, t).1 == Deleted
  {
    DeleteExactly(later, id, t);
  }

  /** A row whose turn has not come is as it was. */
  lemma StillThere(db: Db, rows: seq<string>, clock: nat -> int, n: nat)
    requires 0 < n <= |rows| && DistinctRows(rows) && rows[n - 1] in db.entities
    ensures var prev, id := DeleteRows(db, rows, clock, n - 1), rows[n - 1];
      id in prev.entities && prev.entities[id] == db.entities[id]
  {
    ResultsMean(db, rows, clock, n - 1);
    NextIsNew(rows, n);
  }

  lemma {:induction false} AllAreDeleted(db: Db, rows: seq<string>, clock: nat -> int, now: int, n: nat)
    requires n <= |rows| && DistinctRows(rows) && forall i :: 0 <= i < |rows| ==> Eligible(db, rows[i], now)
    requires NotBefore(rows, clock, now)
    ensures forall i :: 0 <= i < n ==> rows[i] !in DeleteRows(db, rows, clock, n).entities
    ensures DeleteRows(db, rows, clock, n).policies == db.policies
    ensures DeleteRows(db, rows, clock, n).tables == db.tables
  {
    if n > 0 {
      AllAreDeleted(db, rows, clock, now, n - 1);
      var prev, id := DeleteRows(db, rows, clock, n - 1), rows[n - 1];
      StillThere(db, rows, clock, n);
      EligibleIsDeleted(db, prev, id, now, clock(n - 1));
      DeleteIsLocal(prev, id, clock(n - 1));
    }
  }

  /** No row is tried before the scan. */
  ghost predicate NotBefore(rows: seq<string>, clock: nat -> int, now: int) {
    forall i :: 0 <= i < |rows| ==> clock(i) >= now
  }

  /** What a scan and its deletions report is true, and a scan of all eligible rows leaves none that was due. */
  lemma ScanReports(db: Db, rows: seq<string>, clock: nat -> int, now: int)
    requires IsOldestFirst(db, rows, now)
    ensures var after, results := DeleteRows(db, rows, clock, |rows|), ResultsOf(db, rows, clock, |rows|);
      && ResultsAreTrue(db.entities, after.entities, rows, results)
      && |after.entities| + CountDeleted(results, true) == |db.entities|
    ensures |rows| == |EligibleIds(db, now)| && NotBefore(rows, clock, now) ==>
      forall id :: IsDue(db, id, now) ==> id !in DeleteRows(db, rows, clock, |rows|).entities
  {
    assert rows[..|rows|] == rows;
    ResultsMean(db, rows, clock, |rows|);
    CountsAreTrue(db, rows, clock, |rows|);
    if |rows| == |EligibleIds(db, now)| && NotBefore(rows, clock, now) {
      NoneDueIsLeft(db, rows, clock, now);
    }
  }

  lemma NoneDueIsLeft(db: Db, rows: seq<string>, clock: nat -> int, now: int)
    requires IsOldestFirst(db, rows, now) && |rows| == |EligibleIds(db, now)|
    requires NotBefore(rows, clock, now)
    ensures forall id :: IsDue(db, id, now) ==> id !in DeleteRows(db, rows, clock, |rows|).entities
  {
    AllTaken(db, rows, now);
    AllAreDeleted(db, rows, clock, now, |rows|);
    forall id | IsDue(db, id, now) ensures id !in DeleteRows(db, rows, clock, |rows|).entities {
      DueIsEligible(db, id, now);
    }
  }

  lemma {:induction false} AllTaken(db: Db, rows: seq<string>, now: int)
    requires IsOldestFirst(db, rows, now) && |rows| == |EligibleIds(db, now)|
    ensures forall id :: id in EligibleIds(db, now) ==> id in rows
  {
    var taken := set i | 0 <= i < |rows| :: rows[i];
    assert taken <= EligibleIds(db, now);
    DistinctCount(rows);
    SameSize(taken, EligibleIds(db, now));
  }

  lemma {:induction false} DistinctCount(rows: seq<string>)
    requires DistinctRows(rows)
    ensures |set i | 0 <= i < |rows| :: rows[i]| == |rows|
  {
    if rows != [] {
      var front, last := rows[..|rows| - 1], rows[|rows| - 1];
      DistinctCount(front);
      var all, some := set i | 0 <= i < |rows| :: rows[i], set i | 0 <= i < |front| :: front[i];
      assert all == some + {last} && last !in some;
    }
  }

  lemma {:induction false} SameSize(a: set<string>, b: set<string>)
    requires a <= b && |a| == |b|
    ensures a == b
  {
    if x :| x in b && x !in a {
      assert |b - {x}| == |b| - 1;
      SizeOf(a, b - {x});
    }
  }

  lemma {:induction false} SizeOf(a: set<string>, b: set<string>)
    requires a <= b
    ensures |a| <= |b|
  {
    if a != {} {
      var x :| x in a;
      SizeOf(a - {x}, b - {x});
    }
  }

  class ComplianceDb {
    const policies: map<string, int>
    const holdStore: LegalHoldStore
    var entities: map<string, Entity>

    function State(): Db
      reads this, holdStore
    {
      Db(policies, entities, holdStore.State())
    }

    constructor (policies: map<string, int>, holdStore: LegalHoldStore)
      ensures State() == Db(policies, map[], holdStore.State()) && this.holdStore == holdStore
    {
      this.policies := policies;
      this.holdStore := holdStore;
      entities := map[];
    }

    /**
     A hold that is not removed blocks at any time; otherwise the row is blocked up to `eligibleAt`,
     its creation plus the floor of its policy, and never when it has no policy.
     */
    method CheckFloor(id: string, now: int) returns (r: FloorCheck)
      ensures r == IsWithinRetentionFloor(State(), id, now)
      ensures r.legalHoldActive <==> IsHeld(State(), id)
      ensures r.legalHoldActive ==> forall t :: IsWithinRetentionFloor(State(), id, t).blocked
      ensures !r.legalHoldActive ==> forall t ::
        IsWithinRetentionFloor(State(), id, t).blocked <==> r.eligibleAt.Some? && t < r.eligibleAt.value
      ensures r.eligibleAt.Some? <==> !r.legalHoldActive && HasPolicy(State(), id)
      ensures r.eligibleAt.Some? ==> exists floorDays ::
        IsFloorOf(State(), id, floorDays) && r.eligibleAt.value - entities[id].createdAt == floorDays * DAY_MS
    {
      FloorCheckMeans(State(), id, now);
      if id !in entities {
        return FloorCheck(false, None, false);
      }
      var e := entities[id];
      if e.tenantId.Some? && e.tenantId.value != "" {
        var holdActive := HasActiveLegalHold(holdStore.State(), e.tenantId.value);
        if holdActive {
          return FloorCheck(true, None, true);
        }
      }
      if e.retentionClass.None? || e.retentionClass.value == "" {
        return FloorCheck(false, None, false);
      }
      if e.retentionClass.value !in policies {
        return FloorCheck(false, None, false);
      }
      var eligibleAt := e.createdAt + policies[e.retentionClass.value] * DAY_MS;
      return FloorCheck(now < eligibleAt, Some(eligibleAt), false);
    }

    /** Fails when the deletion throws; an entity that is not there is treated as deleted. */
    method DeleteEntityPastRetention(id: string, now: int) returns (ok: bool)
      modifies this
      ensures State() == Delete(old(State()), id, now).0
      ensures ok <==> CountsAsDeleted(Delete(old(State()), id, now).1)
      ensures ok <==> id !in entities
    {
      if id !in entities {
        return true;
      }
      var check := CheckFloor(id, now);
      if check.blocked {
        if check.legalHoldActive {
          return false;
        }
        if check.eligibleAt.Some? {
          return false;
        }
      }
      entities := entities - {id};
      return true;
    }

    /** The eligibility query: oldest first, at most `batchSize` rows. */
    method SelectEligible(batchSize: nat, now: int) returns (rows: seq<string>)
      ensures IsOldestFirst(State(), rows, now)
      ensures var n := |EligibleIds(State(), now)|;
        |rows| == if n <= batchSize then n else batchSize
    {
      ghost var db := State();
      var left := set id | id in entities && Eligible(State(), id, now);
      assert left == EligibleIds(db, now);
      rows := [];
      while |rows| < batchSize && left != {}
        invariant IsOldestFirst(db, rows, now)
        invariant left == (set id | id in EligibleIds(db, now) && id !in rows)
        invariant |rows| + |left| == |EligibleIds(db, now)|
        invariant |rows| <= batchSize
      {
        OldestExists(db.entities, left);
        var id :| id in left && forall other :: other in left ==> entities[id].createdAt <= entities[other].createdAt;
        TakeOldest(db, rows, now, id);
        rows := rows + [id];
        left := left - {id};
      }
    }

    method RunRetentionScheduler(
        batchSize: nat, now: int, clock: nat -> int) returns (summary: Summary, rows: seq<string>)
      modifies this
      ensures IsOldestFirst(old(State()), rows, now)
      ensures State() == DeleteRows(old(State()), rows, clock, |rows|)
      ensures summary.results == ResultsOf(old(State()), rows, clock, |rows|)
      ensures summary.deletedCount == CountDeleted(summary.results, true)
      ensures summary.deletedCount + summary.skippedCount == |rows|
      ensures ResultsAreTrue(old(entities), entities, rows, summary.results)
      ensures summary.deletedCount == |old(entities)| - |entities|
      ensures |rows| < batchSize && NotBefore(rows, clock, now) ==>
        forall id :: IsDue(old(State()), id, now) ==> id !in entities
    {
      rows := SelectEligible(batchSize, now);
      ghost var before := State();
      var results := DeleteEach(rows, clock);
      CountsAddUp(results);
      ScanReports(before, rows, clock, now);
      summary := Summary(CountDeleted(results, true), CountDeleted(results, false), results);
    }

    /** The scheduler's loop: a row that cannot be deleted does not stop the scan. */
    method DeleteEach(rows: seq<string>, clock: nat -> int) returns (results: seq<RowResult>)
      modifies this
      ensures State() == DeleteRows(old(State()), rows, clock, |rows|)
      ensures results == ResultsOf(old(State()), rows, clock, |rows|)
      ensures DistinctRows(rows) ==> ResultsAreTrue(old(entities), entities, rows, results)
    {
      ghost var before := State();
      results := [];
      for i := 0 to |rows|
        invariant State() == DeleteRows(before, rows, clock, i)
        invariant results == ResultsOf(before, rows, clock, i)
      {
        var ok := DeleteEntityPastRetention(rows[i], clock(i));
        results := results + [RowResult(rows[i], ok)];
      }
      if DistinctRows(rows) {
        assert rows[..|rows|] == rows;
        ResultsMean(before, rows, clock, |rows|);
      }
    }
  }

  ghost predicate IsOldest(entities: map<string, Entity>, ids: set<string>, id: string)
    requires ids <= entities.Keys
  {
    id in ids && forall other :: other in ids ==> entities[id].createdAt <= entities[other].createdAt
  }

  lemma {:induction false} OldestExists(entities: map<string, Entity>, ids: set<string>)
    requires ids != {} && ids <= entities.Keys
    ensures exists id :: IsOldest(entities, ids, id)
    decreases |ids|
  {
    var id :| id in ids;
    var rest := ids - {id};
    if rest != {} {
      OldestExists(entities, rest);
      var oldest :| IsOldest(entities, rest, oldest);
      var least := if entities[id].createdAt <= entities[oldest].createdAt then id else oldest;
      assert forall other :: other in ids ==> other == id || other in rest;
      assert IsOldest(entities, ids, least);
    } else {
      assert ids == {id} && IsOldest(entities, ids, id);
    }
  }

  lemma TakeOldest(db: Db, rows: seq<string>, now: int, id: string)
    requires IsOldestFirst(db, rows, now) && id in EligibleIds(db, now) && id !in rows
    requires forall other :: other in EligibleIds(db, now) && other !in rows ==>
      db.entities[id].createdAt <= db.entities[other].createdAt
    ensures IsOldestFirst(db, rows + [id], now)
  {
  }
}
