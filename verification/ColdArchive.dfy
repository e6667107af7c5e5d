/**
 Moving old alerts to cold storage: upload, manifest row, mark. The writes are ordered so that a
 failure after any of them leaves nothing marked that is not recorded and uploaded.
 */
module ColdArchive {
  import opened Wrappers

  datatype Status = Raw | Enriched | Notified | Archived

  datatype Alert = Alert(id: string, status: Status, coldArchived: bool, createdAt: int, content: string)

  datatype ManifestRow = ManifestRow(alertId: string, s3Key: string, archivedAt: int, retentionUntil: int)

  /** The alerts table, the manifest, and the objects in the bucket. */
  datatype Stores = Stores(alerts: map<string, Alert>, manifest: seq<ManifestRow>, objects: map<string, Alert>)

  function Key(id: string): string {
    "alerts/" + (id + ".json")
  }

  lemma KeyInjective(a: string, b: string)
    requires Key(a) == Key(b)
    ensures a == b
  {
    assert Key(a)[7..] == a + ".json" && Key(b)[7..] == b + ".json";
    assert |a| == |b|;
    assert a == (a + ".json")[..|a|] && b == (b + ".json")[..|b|];
  }

  // ---------------------------------------------------------------------------
  // The three writes
  // ---------------------------------------------------------------------------

  function PutObject(st: Stores, a: Alert): Stores {
    st.(objects := st.objects[Key(a.id) := a])
  }

  predicate IsRecorded(st: Stores, id: string) {
    exists i :: 0 <= i < |st.manifest| && st.manifest[i].alertId == id
  }

  /** `INSERT … ON CONFLICT (alert_id) DO NOTHING`. */
  function InsertManifest(st: Stores, id: string, archivedAt: int, retentionUntil: int): Stores {
    if IsRecorded(st, id) then st
    else st.(manifest := st.manifest + [ManifestRow(id, Key(id), archivedAt, retentionUntil)])
  }

  function MarkCold(st: Stores, id: string): Stores {
    if id in st.alerts then st.(alerts := st.alerts[id := st.alerts[id].(coldArchived := true)]) else st
  }

  // ---------------------------------------------------------------------------
  // Safety
  // ---------------------------------------------------------------------------

  predicate IsUploaded(st: Stores, id: string) {
    Key(id) in st.objects && st.objects[Key(id)].id == id
  }

  /** Cold implies recorded, recorded implies uploaded, and nothing is recorded twice. */
  ghost predicate Safe(st: Stores) {
    && (forall id :: id in st.alerts ==> st.alerts[id].id == id && (st.alerts[id].coldArchived ==> IsRecorded(st, id)))
    && (forall i :: 0 <= i < |st.manifest| ==>
          st.manifest[i].s3Key == Key(st.manifest[i].alertId) && IsUploaded(st, st.manifest[i].alertId))
    && (forall i, j :: 0 <= i < j < |st.manifest| ==> st.manifest[i].alertId != st.manifest[j].alertId)
  }

  lemma PutKeepsSafe(st: Stores, a: Alert)
    requires Safe(st)
    ensures Safe(PutObject(st, a)) && IsUploaded(PutObject(st, a), a.id)
    ensures forall id :: IsUploaded(st, id) ==> IsUploaded(PutObject(st, a), id)
  {
    var st' := PutObject(st, a);
    forall id | IsUploaded(st, id) ensures IsUploaded(st', id) {
      if Key(id) == Key(a.id) { KeyInjective(id, a.id); }
    }
    assert forall id :: IsRecorded(st', id) == IsRecorded(st, id);
  }

  lemma InsertKeepsSafe(st: Stores, id: string, archivedAt: int, retentionUntil: int)
    requires Safe(st) && IsUploaded(st, id)
    ensures Safe(InsertManifest(st, id, archivedAt, retentionUntil))
    ensures IsRecorded(InsertManifest(st, id, archivedAt, retentionUntil), id)
    ensures forall x :: IsRecorded(st, x) ==> IsRecorded(InsertManifest(st, id, archivedAt, retentionUntil), x)
    ensures st.manifest <= InsertManifest(st, id, archivedAt, retentionUntil).manifest
  {
    var st' := InsertManifest(st, id, archivedAt, retentionUntil);
    if !IsRecorded(st, id) {
      assert st'.manifest[|st.manifest|].alertId == id;
    }
    forall x | IsRecorded(st, x) ensures IsRecorded(st', x) {
      var i :| 0 <= i < |st.manifest| && st.manifest[i].alertId == x;
      assert st'.manifest[i].alertId == x;
    }
  }

  lemma MarkKeepsSafe(st: Stores, id: string)
    requires Safe(st) && IsRecorded(st, id)
    ensures Safe(MarkCold(st, id))
  {
    assert forall x :: IsRecorded(MarkCold(st, id), x) == IsRecorded(st, x);
  }

  // ---------------------------------------------------------------------------
  // Workers in any interleaving
  // ---------------------------------------------------------------------------

  /** Where a worker is with the alert it has read. */
  datatype Stage = Idle | Scanned(alert: Alert) | Uploaded(alert: Alert) | Recorded(alert: Alert)

  datatype State = State(stores: Stores, workers: map<nat, Stage>)

  /**
   A worker holds one alert of its snapshot; a run over a snapshot of many is as many workers that
   scan together and then move one after the other. A worker can stop for good after any step.
   */
  datatype Event =
    | Create(alert: Alert)
    | Edit(id: string, status: Status, content: string)
    | Scan(worker: nat, id: string)
    | Put(worker: nat)
    | Record(worker: nat, archivedAt: int, retentionUntil: int)
    | Mark(worker: nat)
    | Stop(worker: nat)

  function StageOf(s: State, w: nat): Stage {
    if w in s.workers then s.workers[w] else Idle
  }

  predicate Enabled(s: State, e: Event) {
    match e
    case Create(a) => a.id !in s.stores.alerts && !a.coldArchived
    case Edit(id, _, _) => id in s.stores.alerts
    case Scan(w, id) =>
      StageOf(s, w).Idle? && id in s.stores.alerts
      && s.stores.alerts[id].status == Archived && !s.stores.alerts[id].coldArchived
    case Put(w) => StageOf(s, w).Scanned?
    case Record(w, _, _) => StageOf(s, w).Uploaded?
    case Mark(w) => StageOf(s, w).Recorded?
    case Stop(w) => true
  }

  /** A step that is not enabled does not happen. */
  function Step(s: State, e: Event): State {
    if Enabled(s, e) then Taken(s, e) else s
  }

  function Taken(s: State, e: Event): State
    requires Enabled(s, e)
  {
    var st := s.stores;
    match e
    case Create(a) => s.(stores := st.(alerts := st.alerts[a.id := a]))
    case Edit(id, status, content) =>
      s.(stores := st.(alerts := st.alerts[id := st.alerts[id].(status := status, content := content)]))
    case Scan(w, id) => s.(workers := s.workers[w := Scanned(st.alerts[id])])
    case Put(w) =>
      var a := StageOf(s, w).alert;
      State(PutObject(st, a), s.workers[w := Uploaded(a)])
    case Record(w, archivedAt, retentionUntil) =>
      var a := StageOf(s, w).alert;
      State(InsertManifest(st, a.id, archivedAt, retentionUntil), s.workers[w := Recorded(a)])
    case Mark(w) => State(MarkCold(st, StageOf(s, w).alert.id), s.workers[w := Idle])
    case Stop(w) => s.(workers := s.workers[w := Idle])
  }

  /** A worker past a write finds its effect in place. */
  ghost predicate StageHolds(st: Stores, stage: Stage) {
    match stage
    case Idle => true
    case Scanned(a) => true
    case Uploaded(a) => IsUploaded(st, a.id)
    case Recorded(a) => IsRecorded(st, a.id)
  }

  ghost predicate Inv(s: State) {
    Safe(s.stores) && forall w :: w in s.workers ==> StageHolds(s.stores, s.workers[w])
  }

  /** What was uploaded or recorded stays so, and manifest rows never change. */
  ghost predicate Grows(st: Stores, st': Stores) {
    && (forall id :: IsUploaded(st, id) ==> IsUploaded(st', id))
    && (forall id :: IsRecorded(st, id) ==> IsRecorded(st', id))
    && (forall id :: id in st.alerts ==>
          id in st'.alerts && (st.alerts[id].coldArchived ==> st'.alerts[id].coldArchived))
    && st.manifest <= st'.manifest
  }

  lemma StageKeepsHolding(s: State, st': Stores, w: nat, stage: Stage)
    requires Inv(s) && Safe(st') && Grows(s.stores, st') && StageHolds(st', stage)
    ensures Inv(State(st', s.workers[w := stage]))
  {
  }

  lemma StepKeepsInv(s: State, e: Event)
    requires Inv(s) && Enabled(s, e)
    ensures Inv(Taken(s, e)) && Grows(s.stores, Taken(s, e).stores)
  {
    var st, st' := s.stores, Taken(s, e).stores;
    match e
    case Create(a) => assert SameRecords(st, st');
    case Edit(id, status, content) => assert SameRecords(st, st');
    case Scan(w, id) => StageKeepsHolding(s, st, w, Scanned(st.alerts[id]));
    case Put(w) =>
      var a := StageOf(s, w).alert;
      PutKeepsSafe(st, a);
      assert SameRecords(st, st');
      StageKeepsHolding(s, st', w, Uploaded(a));
    case Record(w, archivedAt, retentionUntil) =>
      var a := StageOf(s, w).alert;
      InsertKeepsSafe(st, a.id, archivedAt, retentionUntil);
      StageKeepsHolding(s, st', w, Recorded(a));
    case Mark(w) =>
      var a := StageOf(s, w).alert;
      MarkKeepsSafe(st, a.id);
      assert SameRecords(st, st');
      StageKeepsHolding(s, st', w, Idle);
    case Stop(w) => StageKeepsHolding(s, st, w, Idle);
  }

  ghost predicate SameRecords(st: Stores, st': Stores) {
    forall id :: IsRecorded(st', id) == IsRecorded(st, id)
  }

  /** The state after the events, from a given state. */
  function After(s: State, events: seq<Event>): State {
    if events == [] then s else Step(After(s, events[..|events| - 1]), events[|events| - 1])
  }

  lemma AfterAppend(s: State, events: seq<Event>, e: Event)
    ensures After(s, events + [e]) == Step(After(s, events), e)
  {
    assert (events + [e])[..|events|] == events;
  }

  /**
   In every state a run reaches, from any safe one and with workers stopping anywhere: cold implies
   recorded, recorded implies uploaded, and rows already in the manifest, with their retention dates,
   are still there unchanged.
   */
  lemma {:induction false} RunsAreSafe(s: State, events: seq<Event>)
    requires Inv(s)
    ensures Inv(After(s, events)) && Grows(s.stores, After(s, events).stores)
  {
    if events != [] {
      var front, e := events[..|events| - 1], events[|events| - 1];
      RunsAreSafe(s, front);
      if Enabled(After(s, front), e) {
        StepKeepsInv(After(s, front), e);
        GrowsTransitive(s.stores, After(s, front).stores, After(s, events).stores);
      }
    }
  }

  lemma GrowsTransitive(a: Stores, b: Stores, c: Stores)
    requires Grows(a, b) && Grows(b, c)
    ensures Grows(a, c)
  {
  }

  // ---------------------------------------------------------------------------
  // What the object says
  // ---------------------------------------------------------------------------

  predicate SameAlert(a: Alert, b: Alert) {
    a == b.(coldArchived := a.coldArchived)
  }

  /** The index of the scan that read the alert the worker holds. */
  ghost function HeldScan(s: State, events: seq<Event>, w: nat): Option<nat> {
    if events == [] then None
    else
      var front, e := events[..|events| - 1], events[|events| - 1];
      if !Enabled(After(s, front), e) then HeldScan(s, front, w)
      else if e.Scan? && e.worker == w then Some(|front|)
      else if (e.Mark? || e.Stop?) && e.worker == w then None
      else HeldScan(s, front, w)
  }

  /** The worker uploads the alert. */
  ghost predicate Uploads(s: State, e: Event, id: string) {
    e.Put? && Enabled(s, e) && StageOf(s, e.worker).alert.id == id
  }

  /** The index of the scan whose upload of the alert came last. */
  ghost function ObjectScan(s: State, events: seq<Event>, id: string): Option<nat> {
    if events == [] then None
    else
      var front, e := events[..|events| - 1], events[|events| - 1];
      if Uploads(After(s, front), e, id) then HeldScan(s, front, e.worker) else ObjectScan(s, front, id)
  }

  /** Alert `a` is what the table had when the events came to index `scan`. */
  ghost predicate ReadAt(s: State, events: seq<Event>, scan: Option<nat>, a: Alert) {
    && scan.Some? && scan.value < |events|
    && var before := After(s, events[..scan.value]).stores.alerts;
       a.id in before && before[a.id] == a
  }

  ghost predicate Traced(s: State, events: seq<Event>) {
    var now := After(s, events);
    && (forall w :: !StageOf(now, w).Idle? ==> ReadAt(s, events, HeldScan(s, events, w), StageOf(now, w).alert))
    && (forall id :: Key(id) in now.stores.objects ==>
          now.stores.objects[Key(id)].id == id
          && ReadAt(s, events, ObjectScan(s, events, id), now.stores.objects[Key(id)]))
  }

  lemma ReadStaysRead(s: State, events: seq<Event>, e: Event, scan: Option<nat>, a: Alert)
    requires ReadAt(s, events, scan, a)
    ensures ReadAt(s, events + [e], scan, a)
  {
    assert (events + [e])[..scan.value] == events[..scan.value];
  }

  /** Nothing is held or uploaded yet. */
  ghost predicate IsStart(s: State) {
    Safe(s.stores) && s.workers == map[] && s.stores.objects == map[]
  }

  lemma StepIsTraced(s: State, front: seq<Event>, e: Event)
    requires Inv(After(s, front)) && Traced(s, front)
    ensures Traced(s, front + [e])
  {
    var events, before := front + [e], After(s, front);
    assert events[..|front|] == front;
    AfterAppend(s, front, e);
    var now := After(s, events);
    forall w | !StageOf(now, w).Idle?
      ensures ReadAt(s, events, HeldScan(s, events, w), StageOf(now, w).alert)
    {
      if HeldScan(s, events, w) == HeldScan(s, front, w) && !StageOf(before, w).Idle? {
        ReadStaysRead(s, front, e, HeldScan(s, front, w), StageOf(before, w).alert);
      }
    }
    forall id | Key(id) in now.stores.objects
      ensures now.stores.objects[Key(id)].id == id
        && ReadAt(s, events, ObjectScan(s, events, id), now.stores.objects[Key(id)])
    {
      if Uploads(before, e, id) {
        ReadStaysRead(s, front, e, HeldScan(s, front, e.worker), StageOf(before, e.worker).alert);
      } else {
        ObjectStays(before, e, id);
        ReadStaysRead(s, front, e, ObjectScan(s, front, id), before.stores.objects[Key(id)]);
      }
    }
  }

  lemma ObjectStays(s: State, e: Event, id: string)
    requires !Uploads(s, e, id) && Key(id) in Step(s, e).stores.objects
    ensures Key(id) in s.stores.objects && Step(s, e).stores.objects[Key(id)] == s.stores.objects[Key(id)]
  {
    if e.Put? && Enabled(s, e) && Key(StageOf(s, e.worker).alert.id) == Key(id) {
      KeyInjective(StageOf(s, e.worker).alert.id, id);
    }
  }

  lemma {:induction false} RunIsTraced(s: State, events: seq<Event>)
    requires IsStart(s)
    ensures Traced(s, events)
  {
    if events != [] {
      var front := events[..|events| - 1];
      RunIsTraced(s, front);
      RunsAreSafe(s, front);
      StepIsTraced(s, front, events[|events| - 1]);
      assert events == front + [events[|events| - 1]];
    }
  }

  /** Event number `n` recorded the alert for the first time, with these dates. */
  ghost predicate RecordedBy(s: State, events: seq<Event>, n: nat, row: ManifestRow) {
    && n < |events| && events[n].Record? && Enabled(After(s, events[..n]), events[n])
    && StageOf(After(s, events[..n]), events[n].worker).alert.id == row.alertId
    && !IsRecorded(After(s, events[..n]).stores, row.alertId)
    && row == ManifestRow(row.alertId, Key(row.alertId), events[n].archivedAt, events[n].retentionUntil)
  }

  /** Every manifest row carries the key and the dates of the step that recorded its alert first. */
  lemma {:induction false} RowsAreAsRecorded(s: State, events: seq<Event>, i: nat)
    requires s.stores.manifest == [] && i < |After(s, events).stores.manifest|
    ensures exists n: nat :: RecordedBy(s, events, n, After(s, events).stores.manifest[i])
  {
    if events != [] {
      var front, e := events[..|events| - 1], events[|events| - 1];
      var before, row := After(s, front).stores, After(s, events).stores.manifest[i];
      if i < |before.manifest| {
        assert row == before.manifest[i];
        RowsAreAsRecorded(s, front, i);
        var n: nat :| RecordedBy(s, front, n, row);
        assert front[..n] == events[..n];
        assert RecordedBy(s, events, n, row);
      } else {
        assert RecordedBy(s, events, |front|, row);
      }
    }
  }

  /** Some edit of the alert takes effect at index `from` or later. */
  ghost predicate EditedSince(s: State, events: seq<Event>, id: string, from: nat) {
    exists k :: from <= k < |events| && IsEditOf(s, events, id, k)
  }

  ghost predicate IsEditOf(s: State, events: seq<Event>, id: string, k: nat)
    requires k < |events|
  {
    events[k].Edit? && events[k].id == id && Enabled(After(s, events[..k]), events[k])
  }

  lemma EditStays(s: State, front: seq<Event>, e: Event, id: string, from: nat)
    requires EditedSince(s, front, id, from)
    ensures EditedSince(s, front + [e], id, from)
  {
    var k :| from <= k < |front| && IsEditOf(s, front, id, k);
    assert (front + [e])[..k] == front[..k] && IsEditOf(s, front + [e], id, k);
  }

  /** Without an edit an alert changes in nothing but its mark. */
  lemma {:induction false} UneditedStaysSame(s: State, events: seq<Event>, id: string, from: nat)
    requires from <= |events| && id in After(s, events[..from]).stores.alerts && !EditedSince(s, events, id, from)
    ensures id in After(s, events).stores.alerts
    ensures SameAlert(After(s, events[..from]).stores.alerts[id], After(s, events).stores.alerts[id])
    decreases |events|
  {
    if from == |events| {
      assert events[..from] == events;
    } else {
      var n := |events| - 1;
      var front, e := events[..n], events[n];
      assert events == front + [e] && front[..from] == events[..from];
      if EditedSince(s, front, id, from) { EditStays(s, front, e, id, from); }
      UneditedStaysSame(s, front, id, from);
      assert IsEditOf(s, events, id, n) <==> e.Edit? && e.id == id && Enabled(After(s, front), e);
    }
  }

  /**
   The object of an alert is the alert as the scan whose upload came last has read it. So it agrees with
   the alert's row exactly when the row is as it was then, as it is when no edit came after that scan.
   */
  lemma ObjectIsScannedAlert(s: State, events: seq<Event>, id: string)
    requires IsStart(s) && IsUploaded(After(s, events).stores, id)
    ensures var scan, stored := ObjectScan(s, events, id), After(s, events).stores.objects[Key(id)];
      && ReadAt(s, events, scan, stored) && stored.id == id
      && (!EditedSince(s, events, id, scan.value) ==>
            id in After(s, events).stores.alerts && SameAlert(stored, After(s, events).stores.alerts[id]))
  {
    RunIsTraced(s, events);
    var scan := ObjectScan(s, events, id).value;
    if !EditedSince(s, events, id, scan) {
      UneditedStaysSame(s, events, id, scan);
    }
  }

  /** If something edited archived alerts, an edit between the scan and the mark would be lost. */
  lemma EditIsLost()
    ensures var a := Alert("1", Archived, false, 0, "old");
      var s := State(Stores(map["1" := a], [], map[]), map[]);
      var s1 := Step(Step(s, Scan(0, "1")), Put(0));
      var s2 := Step(Step(Step(s1, Edit("1", Archived, "new")), Record(0, 5, 7)), Mark(0));
      s2.stores.alerts["1"].coldArchived && s2.stores.objects[Key("1")].content != s2.stores.alerts["1"].content
  {
  }

  // ---------------------------------------------------------------------------
  // One run of the archiver
  // ---------------------------------------------------------------------------

  datatype Operation = PutOp | InsertOp | UpdateOp

  /** An operation fails before or after its effect; a crash also ends the run. */
  datatype Fault = NoFault | Fault(operation: Operation, applied: bool, crash: bool)

  /** What a run does not choose, by alert id: faults, the clock, and the retention date. */
  datatype Env = Env(fault: string -> Fault, archivedAt: string -> int, retentionUntil: string -> int)

  predicate PutApplied(f: Fault) { f.NoFault? || f.operation != PutOp || f.applied }

  predicate InsertApplied(f: Fault) { f.NoFault? || f.operation == UpdateOp || (f.operation == InsertOp && f.applied) }

  predicate UpdateApplied(f: Fault) { f.NoFault? || (f.operation == UpdateOp && f.applied) }

  /** What processing one alert does to the stores. */
  function ProcessOne(st: Stores, a: Alert, env: Env): Stores {
    var f := env.fault(a.id);
    var st1 := if PutApplied(f) then PutObject(st, a) else st;
    var st2 :=
      if InsertApplied(f) then InsertManifest(st1, a.id, env.archivedAt(a.id), env.retentionUntil(a.id))
      else st1;
    if UpdateApplied(f) then MarkCold(st2, a.id) else st2
  }

  /** Write `k` of 1 to 3, as a step and as its effect. */
  function Write(w: nat, a: Alert, env: Env, k: nat): Event {
    if k == 1 then Put(w)
    else if k == 2 then Record(w, env.archivedAt(a.id), env.retentionUntil(a.id))
    else Mark(w)
  }

  function Effect(st: Stores, a: Alert, env: Env, k: nat): Stores {
    if k == 1 then PutObject(st, a)
    else if k == 2 then InsertManifest(st, a.id, env.archivedAt(a.id), env.retentionUntil(a.id))
    else MarkCold(st, a.id)
  }

  /** A worker that scans the alert and does the first `k` of the three writes. */
  function Writes(w: nat, a: Alert, env: Env, k: nat): seq<Event> {
    if k == 0 then [Scan(w, a.id)] else Writes(w, a, env, k - 1) + [Write(w, a, env, k)]
  }

  function Written(st: Stores, a: Alert, env: Env, k: nat): Stores {
    if k == 0 then st else Effect(Written(st, a, env, k - 1), a, env, k)
  }

  /** How many writes take effect. */
  function Applied(f: Fault): (k: nat)
    ensures k <= 3
  {
    if UpdateApplied(f) then 3 else if InsertApplied(f) then 2 else if PutApplied(f) then 1 else 0
  }

  function StageAfter(a: Alert, k: nat): Stage {
    if k == 0 then Scanned(a) else if k == 1 then Uploaded(a) else if k == 2 then Recorded(a) else Idle
  }

  lemma {:induction false} WritesTaken(s: State, w: nat, a: Alert, env: Env, k: nat)
    requires Enabled(s, Scan(w, a.id)) && s.stores.alerts[a.id] == a && k <= 3
    ensures After(s, Writes(w, a, env, k)) == State(Written(s.stores, a, env, k), s.workers[w := StageAfter(a, k)])
  {
    if k == 0 {
      AfterAppend(s, [], Scan(w, a.id));
      assert [] + [Scan(w, a.id)] == [Scan(w, a.id)];
    } else {
      WritesTaken(s, w, a, env, k - 1);
      AfterAppend(s, Writes(w, a, env, k - 1), Write(w, a, env, k));
      NextWrite(s.workers, Written(s.stores, a, env, k - 1), w, a, env, k);
    }
  }

  lemma NextWrite(workers: map<nat, Stage>, st: Stores, w: nat, a: Alert, env: Env, k: nat)
    requires 1 <= k <= 3
    ensures Step(State(st, workers[w := StageAfter(a, k - 1)]), Write(w, a, env, k)) ==
      State(Effect(st, a, env, k), workers[w := StageAfter(a, k)])
  {
    assert workers[w := StageAfter(a, k - 1)][w := StageAfter(a, k)] == workers[w := StageAfter(a, k)];
  }

  lemma ProcessIsWritten(st: Stores, a: Alert, env: Env)
    ensures ProcessOne(st, a, env) == Written(st, a, env, Applied(env.fault(a.id)))
  {
    var one, two := Written(st, a, env, 1), Written(st, a, env, 2);
    assert Written(st, a, env, 0) == st && one == PutObject(st, a);
    assert Written(st, a, env, 3) == MarkCold(two, a.id);
  }

  /** Processing an alert is a run of a worker that scans it, goes as far as the fault lets it, and stops. */
  lemma ProcessIsRun(s: State, w: nat, a: Alert, env: Env)
    requires Enabled(s, Scan(w, a.id)) && s.stores.alerts[a.id] == a
    ensures After(s, Writes(w, a, env, Applied(env.fault(a.id))) + [Stop(w)]) ==
      State(ProcessOne(s.stores, a, env), s.workers[w := Idle])
  {
    var k := Applied(env.fault(a.id));
    WritesTaken(s, w, a, env, k);
    AfterAppend(s, Writes(w, a, env, k), Stop(w));
    ProcessIsWritten(s.stores, a, env);
    assert s.workers[w := StageAfter(a, k)][w := Idle] == s.workers[w := Idle];
  }

  lemma ProcessKeepsSafe(st: Stores, a: Alert, env: Env)
    requires Safe(st) && IsEligible(st, a)
    ensures Safe(ProcessOne(st, a, env)) && Grows(st, ProcessOne(st, a, env))
  {
    var s := State(st, map[]);
    ProcessIsRun(s, 0, a, env);
    RunsAreSafe(s, Writes(0, a, env, Applied(env.fault(a.id))) + [Stop(0)]);
  }

  const DAY := 86_400_000

  predicate IsEligible(st: Stores, a: Alert) {
    a.id in st.alerts && st.alerts[a.id] == a && a.status == Archived && !a.coldArchived
  }

  /** The rows the SELECT gives, in some order: all archived alerts in the table that are hot and old enough. */
  ghost predicate IsScan(st: Stores, now: int, thresholdDays: int, eligible: seq<Alert>) {
    && (forall i :: 0 <= i < |eligible| ==> IsEligible(st, eligible[i]))
    && (forall i, j :: 0 <= i < j < |eligible| ==> eligible[i].id != eligible[j].id)
    && (forall id :: id in st.alerts && IsEligible(st, st.alerts[id]) ==>
          (st.alerts[id] in eligible <==> st.alerts[id].createdAt < now - DAY * thresholdDays))
  }

  /** The stores after the first `n` alerts of the snapshot. */
  function RunTo(st: Stores, eligible: seq<Alert>, n: nat, env: Env): Stores
    requires n <= |eligible|
  {
    if n == 0 then st else ProcessOne(RunTo(st, eligible, n - 1, env), eligible[n - 1], env)
  }

  /** Of the alerts, exactly those of the snapshot whose update took effect have become cold. */
  lemma {:induction false} RunMarksExactly(st: Stores, eligible: seq<Alert>, n: nat, env: Env, id: string)
    requires n <= |eligible| && id in st.alerts
    ensures id in RunTo(st, eligible, n, env).alerts
    ensures RunTo(st, eligible, n, env).alerts[id] ==
      if MarkedWithin(eligible, n, env, id) then st.alerts[id].(coldArchived := true) else st.alerts[id]
  {
    if n > 0 { RunMarksExactly(st, eligible, n - 1, env, id); }
  }

  predicate MarkedWithin(eligible: seq<Alert>, n: nat, env: Env, id: string)
    requires n <= |eligible|
  {
    n > 0 && (MarkedWithin(eligible, n - 1, env, id) || (eligible[n - 1].id == id && UpdateApplied(env.fault(id))))
  }

  lemma {:induction false} MarkedIsInSnapshot(eligible: seq<Alert>, n: nat, env: Env, id: string)
    requires n <= |eligible|
    ensures MarkedWithin(eligible, n, env, id) <==>
      UpdateApplied(env.fault(id)) && exists i :: 0 <= i < n && eligible[i].id == id
  {
    if n > 0 { MarkedIsInSnapshot(eligible, n - 1, env, id); }
  }

  lemma StillEligible(st: Stores, eligible: seq<Alert>, n: nat, env: Env)
    requires n < |eligible| && IsEligible(st, eligible[n])
    requires forall i :: 0 <= i < n ==> eligible[i].id != eligible[n].id
    ensures IsEligible(RunTo(st, eligible, n, env), eligible[n])
  {
    RunMarksExactly(st, eligible, n, env, eligible[n].id);
    MarkedIsInSnapshot(eligible, n, env, eligible[n].id);
  }

  /** A run over a snapshot, as far as it comes, keeps the stores safe and loses nothing. */
  lemma {:induction false} RunKeepsSafe(
      st: Stores, now: int, thresholdDays: int, eligible: seq<Alert>, n: nat, env: Env)
    requires Safe(st) && IsScan(st, now, thresholdDays, eligible) && n <= |eligible|
    ensures Safe(RunTo(st, eligible, n, env)) && Grows(st, RunTo(st, eligible, n, env))
  {
    if n > 0 {
      RunKeepsSafe(st, now, thresholdDays, eligible, n - 1, env);
      StillEligible(st, eligible, n - 1, env);
      ProcessKeepsSafe(RunTo(st, eligible, n - 1, env), eligible[n - 1], env);
      GrowsTransitive(st, RunTo(st, eligible, n - 1, env), RunTo(st, eligible, n, env));
    }
  }

  /** A run without faults leaves no alert hot that was old enough at its scan. */
  lemma FaultFreeRunArchivesAll(st: Stores, now: int, thresholdDays: int, eligible: seq<Alert>, env: Env, id: string)
    requires Safe(st) && IsScan(st, now, thresholdDays, eligible)
    requires forall x :: env.fault(x).NoFault?
    requires id in st.alerts && st.alerts[id].status == Archived && st.alerts[id].createdAt < now - DAY * thresholdDays
    ensures var st' := RunTo(st, eligible, |eligible|, env);
      && id in st'.alerts && st'.alerts[id].coldArchived && IsRecorded(st', id)
      && (exists row :: row in st'.manifest && row.alertId == id && IsUploaded(st', id))
  {
    var st' := RunTo(st, eligible, |eligible|, env);
    RunMarksExactly(st, eligible, |eligible|, env, id);
    MarkedIsInSnapshot(eligible, |eligible|, env, id);
    RunKeepsSafe(st, now, thresholdDays, eligible, |eligible|, env);
    if !st.alerts[id].coldArchived {
      assert IsEligible(st, st.alerts[id]) && st.alerts[id] in eligible;
    }
    var i :| 0 <= i < |st'.manifest| && st'.manifest[i].alertId == id;
    assert st'.manifest[i] in st'.manifest;
  }

  /** The index of the first alert on which the run crashes, or the length. */
  function CrashAt(eligible: seq<Alert>, env: Env): (n: nat)
    ensures n <= |eligible|
  {
    if eligible == [] || Crashes(env.fault(eligible[0].id)) then 0 else 1 + CrashAt(eligible[1..], env)
  }

  predicate Crashes(f: Fault) { f.Fault? && f.crash }

  /** How many of the first `n` alerts had no fault. */
  function CleanCount(eligible: seq<Alert>, n: nat, env: Env): nat
    requires n <= |eligible|
  {
    if n == 0 then 0 else CleanCount(eligible, n - 1, env) + (if env.fault(eligible[n - 1].id).NoFault? then 1 else 0)
  }

  class ColdStore {
    var alerts: map<string, Alert>
    var manifest: seq<ManifestRow>
    var objects: map<string, Alert>

    function State(): Stores
      reads this
    {
      Stores(alerts, manifest, objects)
    }

    constructor ()
      ensures State() == Stores(map[], [], map[]) && Safe(State())
    {
      alerts, manifest, objects := map[], [], map[];
    }

    /** One alert: upload, record, mark, up to the first error. */
    method ArchiveOne(a: Alert, env: Env) returns (ok: bool)
      modifies this
      ensures State() == ProcessOne(old(State()), a, env)
      ensures ok == env.fault(a.id).NoFault?
    {
      var f := env.fault(a.id);
      var s3Key := Key(a.id);
      if f.Fault? && f.operation == PutOp && !f.applied {
        return false;
      }
      objects := objects[s3Key := a];
      if f.Fault? && f.operation == PutOp {
        return false;
      }
      if f.Fault? && f.operation == InsertOp && !f.applied {
        return false;
      }
      var recorded := exists i :: 0 <= i < |manifest| && manifest[i].alertId == a.id;
      if !recorded {
        manifest := manifest + [ManifestRow(a.id, s3Key, env.archivedAt(a.id), env.retentionUntil(a.id))];
      }
      if f.Fault? && f.operation == InsertOp {
        return false;
      }
      if f.Fault? && !f.applied {
        return false;
      }
      if a.id in alerts {
        alerts := alerts[a.id := alerts[a.id].(coldArchived := true)];
      }
      return f.NoFault?;
    }

    /**
     One run over the snapshot of its SELECT. Every alert is counted as archived or skipped, unless the
     run crashes; then the alerts before the crash are processed and the one it crashed on as far as it came.
     */
    method ArchiveColdAlerts(now: int, thresholdDays: int, eligible: seq<Alert>, env: Env)
      returns (archived: nat, skipped: nat, completed: bool)
      requires Safe(State()) && IsScan(State(), now, thresholdDays, eligible)
      modifies this
      ensures Safe(State()) && Grows(old(State()), State())
      ensures completed == (CrashAt(eligible, env) == |eligible|)
      ensures completed ==>
        && State() == RunTo(old(State()), eligible, |eligible|, env)
        && archived + skipped == |eligible|
        && archived == CleanCount(eligible, |eligible|, env)
      ensures !completed ==> State() == RunTo(old(State()), eligible, CrashAt(eligible, env) + 1, env)
    {
      ghost var st := State();
      archived, skipped := 0, 0;
      for i := 0 to |eligible|
        invariant State() == RunTo(st, eligible, i, env)
        invariant archived + skipped == i && archived == CleanCount(eligible, i, env)
        invariant CrashAt(eligible, env) == i + CrashAt(eligible[i..], env)
      {
        assert eligible[i..][1..] == eligible[i + 1..];
        var ok := ArchiveOne(eligible[i], env);
        if Crashes(env.fault(eligible[i].id)) {
          RunKeepsSafe(st, now, thresholdDays, eligible, i + 1, env);
          return archived, skipped, false;
        }
        if ok {
          archived := archived + 1;
        } else {
          skipped := skipped + 1;
        }
      }
      RunKeepsSafe(st, now, thresholdDays, eligible, |eligible|, env);
      completed := true;
    }
  }
}
