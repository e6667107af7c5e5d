/**
 The backfill that encrypts rows stored as plaintext: for each entity type, batches in id order
 behind a cursor, a row at a time, where any row can fail.
 */
module KmsBackfill {
  import opened Wrappers
  import opened Encryption
  import opened EntityTable
  import opened BackfillPasses

  // ---------------------------------------------------------------------------
  // One row
  // ---------------------------------------------------------------------------

  /** A string in a sensitive field that is not marked as encrypted. */
  predicate IsPlain(s: Settings, entityType: string, record: Properties, key: string) {
    HoldsText(s, entityType, record, key) && !IsEncrypted(record[key].text)
  }

  method NeedsBackfill(s: Settings, entityType: string, record: Properties) returns (r: bool)
    ensures r == Needs(s, entityType, record)
  {
    var fields := s.fields(entityType);
    for i := 0 to |fields|
      invariant forall key :: key in fields[..i] ==> !IsPlain(s, entityType, record, key)
    {
      var key := fields[i];
      if key in record && record[key].Str? && !IsEncrypted(record[key].text) {
        assert IsPlain(s, entityType, record, key);
        return true;
      }
    }
    assert fields[..|fields|] == fields;
    return false;
  }

  predicate Needs(s: Settings, entityType: string, record: Properties) {
    exists key :: key in record && IsPlain(s, entityType, record, key)
  }

  function UpgradeValue(s: Settings, entityType: string, record: Properties, key: string, nonces: Nonces): Value
    requires key in record
  {
    if IsPlain(s, entityType, record, key) then Str(EncryptField(s, entityType, record[key].text, nonces(key)))
    else record[key]
  }

  /** The record with its plaintext sensitive fields encrypted. */
  function Upgraded(s: Settings, entityType: string, record: Properties, nonces: Nonces): Properties {
    map key | key in record :: UpgradeValue(s, entityType, record, key, nonces)
  }

  method EncryptPlaintextFields(
      s: Settings, entityType: string, record: Properties, nonces: Nonces) returns (result: Properties)
    ensures result == Upgraded(s, entityType, record, nonces)
  {
    var fields := s.fields(entityType);
    result := record;
    for i := 0 to |fields|
      invariant result.Keys == record.Keys
      invariant forall key :: key in record ==>
        result[key] == if key in fields[..i] then UpgradeValue(s, entityType, record, key, nonces) else record[key]
    {
      var key := fields[i];
      NotBefore(s, entityType, i);
      if key in result && result[key].Str? && !IsEncrypted(result[key].text) {
        result := result[key := Str(EncryptField(s, entityType, result[key].text, nonces(key)))];
      }
    }
    assert fields[..|fields|] == fields;
  }

  /** Encrypting leaves nothing to do, unless encryption is off, when it changes nothing. */
  lemma UpgradeSettles(s: Settings, entityType: string, record: Properties, nonces: Nonces)
    requires Lawful(s.cipher)
    ensures s.enabled ==> !Needs(s, entityType, Upgraded(s, entityType, record, nonces))
    ensures !s.enabled ==> Upgraded(s, entityType, record, nonces) == record
  {
    var upgraded := Upgraded(s, entityType, record, nonces);
    if s.enabled {
      forall key | key in upgraded ensures !IsPlain(s, entityType, upgraded, key) {
        if IsPlain(s, entityType, record, key) {
          FieldReadsBack(s, entityType, record[key].text, nonces(key));
        }
      }
    }
  }

  /** No plaintext sensitive field starts with a byte order mark. */
  ghost predicate NoPlainBom(s: Settings, entityType: string, record: Properties) {
    forall key :: IsPlain(s, entityType, record, key) ==> !StartsWithBom(record[key].text)
  }

  /** Readers see the same record before and after, exactly when no byte order mark is lost. */
  lemma UpgradeIsInvisible(s: Settings, entityType: string, record: Properties, nonces: Nonces)
    requires Lawful(s.cipher)
    ensures Decrypted(s, entityType, Upgraded(s, entityType, record, nonces)) == Decrypted(s, entityType, record)
      <==> !s.enabled || Decrypted(s, entityType, record).None? || NoPlainBom(s, entityType, record)
  {
    var upgraded := Upgraded(s, entityType, record, nonces);
    UpgradeSettles(s, entityType, record, nonces);
    if s.enabled {
      forall key | key in record ensures SameRead(s, entityType, record, upgraded, key) {
        if IsPlain(s, entityType, record, key) {
          FieldReadsBack(s, entityType, record[key].text, nonces(key));
        }
      }
      SameOpening(s, entityType, record, upgraded);
      if Decrypted(s, entityType, record).Some? {
        SameReads(s, entityType, record, upgraded);
      }
    }
  }

  /** A field opens after as before, to the same text but for a lost byte order mark. */
  ghost predicate SameRead(s: Settings, entityType: string, record: Properties, upgraded: Properties, key: string)
    requires key in record && key in upgraded
  {
    && Opens(s, entityType, upgraded, key) == Opens(s, entityType, record, key)
    && DecryptValue(s, entityType, upgraded, key) ==
       if IsPlain(s, entityType, record, key) then Str(DecodeText(record[key].text))
       else DecryptValue(s, entityType, record, key)
  }

  ghost predicate SameReadAll(s: Settings, entityType: string, record: Properties, upgraded: Properties) {
    record.Keys == upgraded.Keys && forall key :: key in record ==> SameRead(s, entityType, record, upgraded, key)
  }

  lemma SameOpening(s: Settings, entityType: string, record: Properties, upgraded: Properties)
    requires SameReadAll(s, entityType, record, upgraded)
    ensures Decrypted(s, entityType, upgraded).Some? == Decrypted(s, entityType, record).Some?
  {
    forall key | key in record
      ensures Opens(s, entityType, upgraded, key) == Opens(s, entityType, record, key)
    {
      assert SameRead(s, entityType, record, upgraded, key);
    }
  }

  lemma SameReads(s: Settings, entityType: string, record: Properties, upgraded: Properties)
    requires SameReadAll(s, entityType, record, upgraded)
    requires Decrypted(s, entityType, record).Some? && Decrypted(s, entityType, upgraded).Some?
    ensures Decrypted(s, entityType, upgraded) == Decrypted(s, entityType, record)
      <==> NoPlainBom(s, entityType, record)
  {
    var before, after := Decrypted(s, entityType, record).value, Decrypted(s, entityType, upgraded).value;
    if NoPlainBom(s, entityType, record) {
      forall key | key in record ensures after[key] == before[key] {
        assert SameRead(s, entityType, record, upgraded, key);
      }
      assert after == before;
    } else {
      var key :| IsPlain(s, entityType, record, key) && StartsWithBom(record[key].text);
      assert SameRead(s, entityType, record, upgraded, key);
      assert before[key] == record[key] != after[key];
    }
  }

  // ---------------------------------------------------------------------------
  // One row in a run
  // ---------------------------------------------------------------------------

  /** What can go wrong for a row; a lost update was applied although it reports an error. */
  datatype Fault = NoFault | EncryptFails | UpdateFails | UpdateLost

  /** What a run does not choose: by pass and id, the faults and the initialisation vectors. */
  datatype Env = Env(settings: Settings, dryRun: bool, fault: (nat, string) -> Fault, nonces: (nat, string) -> Nonces)

  predicate RowNeeds(s: Settings, row: Row) {
    Needs(s, row.entityType, row.properties)
  }

  /** A dry run encrypts but does not write, so only encrypting can fail. */
  function OutcomeOf(env: Env, pass: nat, row: Row): Outcome {
    if !RowNeeds(env.settings, row) then Skipped
    else
      match env.fault(pass, row.id)
      case NoFault => Updated
      case EncryptFails => Failed
      case UpdateFails => if env.dryRun then Updated else Failed
      case UpdateLost => if env.dryRun then Updated else Failed
  }

  predicate IsWritten(env: Env, pass: nat, row: Row) {
    && RowNeeds(env.settings, row) && !env.dryRun
    && (env.fault(pass, row.id).NoFault? || env.fault(pass, row.id).UpdateLost?)
  }

  function UpgradedRow(env: Env, pass: nat, row: Row): Row {
    row.(properties := Upgraded(env.settings, row.entityType, row.properties, env.nonces(pass, row.id)))
  }

  function Processed(env: Env, pass: nat, row: Row): Row {
    if IsWritten(env, pass, row) then UpgradedRow(env, pass, row) else row
  }

  /** The treatment of rows that the batch loops run. */
  function WorkerOf(env: Env): Worker {
    Worker(env.dryRun, (pass: nat, row: Row) => OutcomeOf(env, pass, row),
           (pass: nat, row: Row) => Processed(env, pass, row))
  }

  lemma WorkerKeepsIds(env: Env)
    ensures KeepsIds(WorkerOf(env))
  {
  }

  // ---------------------------------------------------------------------------
  // The loops
  // ---------------------------------------------------------------------------

  class Entities {
    const rank: Rank
    var rows: seq<Row>

    ghost predicate Valid()
      reads this
    {
      Table(rank, rows)
    }

    constructor (rank: Rank, rows: seq<Row>)
      requires Table(rank, rows)
      ensures Valid() && this.rank == rank && this.rows == rows
    {
      this.rank, this.rows := rank, rows;
    }

    /** The batches of one type: every row of the type is visited exactly once. */
    method BackfillType(
        env: Env, ghost w: Worker, pass: nat, entityType: string, batchSize: nat, r: BackfillResult)
      returns (result: BackfillResult)
      requires Valid() && w == WorkerOf(env)
      modifies this
      ensures Valid()
      ensures batchSize >= 1 ==>
        rows == Pass(w, pass, entityType, old(rows)) && result == PassResult(w, rank, pass, entityType, old(rows), r)
      ensures batchSize == 0 ==> rows == old(rows) && result == r
    {
      ghost var rows0, all, n := rows, After(rank, rows, entityType, ""), 0;
      result := r;
      var cursor := "";
      WorkerKeepsIds(env);
      PassStarts(w, pass, rows0, all, r);
      while true
        invariant ToVisit(rank, rows0, entityType, all)
        invariant n <= |all| && LoopState(rows, result, cursor) == StateAt(w, pass, rows0, all, r, n)
        invariant batchSize == 0 ==> n == 0
        decreases |all| - n
      {
        var batch := Select(rank, rows, entityType, cursor, batchSize);
        NextBatch(w, pass, rank, rows0, entityType, all, r, n, rows, result, cursor, batchSize, batch);
        if |batch| == 0 {
          break;
        }
        result := BackfillBatch(env, w, pass, entityType, batch, result, rows0, all, r, n, cursor);
        cursor := batch[|batch| - 1].id;
        n := n + |batch|;
      }
      PassEnds(w, pass, rank, rows0, entityType, all, r, n, rows, result, cursor);
    }

    /** The rows of one batch, in order: the loop's state moves on by the batch. */
    method BackfillBatch(env: Env, ghost w: Worker, pass: nat, entityType: string, batch: seq<Row>, r: BackfillResult,
                         ghost rows0: seq<Row>, ghost all: seq<Row>, ghost r0: BackfillResult, ghost n: nat,
                         ghost cursor: string)
      returns (result: BackfillResult)
      requires ToVisit(rank, rows0, entityType, all) && n <= |all|
      requires LoopState(rows, r, cursor) == StateAt(w, pass, rows0, all, r0, n)
      requires w == WorkerOf(env) && batch != [] && n + |batch| <= |all| && batch == all[n..n + |batch|]
      modifies this
      ensures LoopState(rows, result, batch[|batch| - 1].id) == StateAt(w, pass, rows0, all, r0, n + |batch|)
    {
      WorkerKeepsIds(env);
      ToVisitAreRows(rank, rows0, entityType, all);
      ghost var visited := all[..n];
      result := r.(scanned := r.scanned + |batch|);
      ghost var before := result;
      assert visited + batch[..0] == visited;
      for i := 0 to |batch|
        invariant rows == WithVisited(w, pass, rows0, visited + batch[..i])
        invariant result == AddOutcomes(w, pass, before, 0, batch[..i])
      {
        VisitNext(w, pass, rank, rows0, visited + batch[..i], batch[i]);
        OutcomesAppend(w, pass, before, batch[..i], batch[i]);
        TakeNext(visited, batch, i);
        result := BackfillRow(env, pass, entityType, batch[i], result);
      }
      assert batch[..|batch|] == batch;
      PassAdvances(w, pass, rows0, all, r0, n, r, batch, rows, result);
    }

    /** One row: skipped, updated, or counted as an error; the table changes for this row only. */
    method BackfillRow(
        env: Env, pass: nat, entityType: string, row: Row, r: BackfillResult) returns (result: BackfillResult)
      requires row.entityType == entityType
      modifies this
      ensures
        || rows == Update(old(rows), row.id, row.entityType, Processed(env, pass, row).properties)
        || (rows == old(rows) && Processed(env, pass, row) == row)
      ensures result == AddOutcome(r, OutcomeOf(env, pass, row))
    {
      var needs := NeedsBackfill(env.settings, entityType, row.properties);
      if !needs {
        return r.(skipped := r.skipped + 1);
      }
      var fault := env.fault(pass, row.id);
      if fault.EncryptFails? {
        return r.(errors := r.errors + 1);
      }
      var encrypted := EncryptPlaintextFields(env.settings, entityType, row.properties, env.nonces(pass, row.id));
      if !env.dryRun {
        if fault.UpdateFails? {
          return r.(errors := r.errors + 1);
        }
        rows := Update(rows, row.id, entityType, encrypted);
        if fault.UpdateLost? {
          return r.(errors := r.errors + 1);
        }
      }
      return r.(updated := r.updated + 1);
    }

    /** The whole backfill. A batch size of 0 selects nothing and ends at once. */
    method BackfillEntities(env: Env, types: seq<string>, batchSize: nat) returns (result: BackfillResult)
      requires Valid()
      modifies this
      ensures Valid()
      ensures batchSize >= 1 ==>
        && rows == Passes(WorkerOf(env), types, |types|, old(rows))
        && result == Totals(WorkerOf(env), rank, types, |types|, old(rows))
      ensures batchSize == 0 ==> rows == old(rows) && result == BackfillResult(0, 0, 0, 0, env.dryRun)
    {
      ghost var w := WorkerOf(env);
      result := BackfillResult(0, 0, 0, 0, env.dryRun);
      for k := 0 to |types|
        invariant Valid()
        invariant batchSize >= 1 ==>
          rows == Passes(w, types, k, old(rows)) && result == Totals(w, rank, types, k, old(rows))
        invariant batchSize == 0 ==> rows == old(rows) && result == BackfillResult(0, 0, 0, 0, env.dryRun)
      {
        result := BackfillType(env, w, k, types[k], batchSize, result);
      }
    }
  }

  // ---------------------------------------------------------------------------
  // Runs
  // ---------------------------------------------------------------------------

  /** What readers of the row see. */
  function Read(s: Settings, row: Row): Option<Properties> {
    Decrypted(s, row.entityType, row.properties)
  }

  /** Once a pass has changed a row no later one does. */
  lemma ChangedRowIsDone(env: Env, pass: nat, row: Row)
    requires Lawful(env.settings.cipher)
    ensures Processed(env, pass, row) == row || !RowNeeds(env.settings, Processed(env, pass, row))
    ensures env.settings.enabled && !env.dryRun && OutcomeOf(env, pass, row) != Failed ==>
      !RowNeeds(env.settings, Processed(env, pass, row))
    ensures !env.settings.enabled ==> Processed(env, pass, row) == row
  {
    UpgradeSettles(env.settings, row.entityType, row.properties, env.nonces(pass, row.id));
  }

  /** Pass `p` is over the row's type and writes the row, as it is before the run. */
  ghost predicate WritesAt(env: Env, types: seq<string>, row: Row, p: nat) {
    p < |types| && types[p] == row.entityType && IsWritten(env, p, row)
  }

  ghost predicate WritesWithin(env: Env, types: seq<string>, row: Row, k: nat) {
    exists p: nat :: p < k && WritesAt(env, types, row, p)
  }

  /** The first pass that writes a row upgrades it, and nothing else ever changes it. */
  lemma {:induction false} RowAfterRun(env: Env, types: seq<string>, k: nat, row: Row) returns (pass: nat)
    requires Lawful(env.settings.cipher) && env.settings.enabled && k <= |types|
    ensures !WritesWithin(env, types, row, k) ==> RowAfter(WorkerOf(env), types, k, row) == row
    ensures WritesWithin(env, types, row, k) ==>
      WritesAt(env, types, row, pass) && RowAfter(WorkerOf(env), types, k, row) == UpgradedRow(env, pass, row)
  {
    pass := 0;
    if k > 0 {
      pass := RowAfterRun(env, types, k - 1, row);
      WorkerKeepsIds(env);
      RowKeepsIdentity(WorkerOf(env), types, k - 1, row);
      if WritesWithin(env, types, row, k - 1) {
        UpgradeSettles(env.settings, row.entityType, row.properties, env.nonces(pass, row.id));
        assert !RowNeeds(env.settings, UpgradedRow(env, pass, row));
      } else if WritesAt(env, types, row, k - 1) {
        pass := k - 1;
      }
    }
  }

  /**
   A run is invisible to the readers of a row exactly when encryption is off, no pass writes the row,
   the row does not decrypt, or it has no byte order mark to lose.
   */
  lemma RunIsInvisible(env: Env, types: seq<string>, rows: seq<Row>, after: seq<Row>, i: nat)
    requires Lawful(env.settings.cipher) && i < |rows|
    requires after == Passes(WorkerOf(env), types, |types|, rows)
    ensures |after| == |rows|
    ensures Read(env.settings, after[i]) == Read(env.settings, rows[i]) <==>
      (!env.settings.enabled || !WritesWithin(env, types, rows[i], |types|)
       || Read(env.settings, rows[i]).None? || NoPlainBom(env.settings, rows[i].entityType, rows[i].properties))
  {
    PassesRowwise(WorkerOf(env), types, |types|, rows);
    if env.settings.enabled {
      var pass := RowAfterRun(env, types, |types|, rows[i]);
      UpgradeIsInvisible(env.settings, rows[i].entityType, rows[i].properties, env.nonces(pass, rows[i].id));
    } else {
      OffRunChangesNothing(env, types, |types|, rows);
    }
  }

  lemma WorkerFinishes(env: Env)
    requires Lawful(env.settings.cipher) && env.settings.enabled && !env.dryRun
    ensures Finishes(WorkerOf(env), row => !RowNeeds(env.settings, row))
  {
    var w := WorkerOf(env);
    forall p: nat, x: Row | w.process(p, x) != x || w.outcome(p, x) != Failed
      ensures !RowNeeds(env.settings, w.process(p, x))
    {
      ChangedRowIsDone(env, p, x);
    }
  }

  /** After a run without errors, with encryption on, a second run over any of its types updates nothing. */
  lemma RerunUpdatesNothing(env: Env, again: Env, rank: Rank, types: seq<string>, typesAgain: seq<string>,
                            rows: seq<Row>, after: seq<Row>)
    requires Lawful(env.settings.cipher) && env.settings.enabled && !env.dryRun && again.settings == env.settings
    requires Table(rank, rows) && Totals(WorkerOf(env), rank, types, |types|, rows).errors == 0
    requires after == Passes(WorkerOf(env), types, |types|, rows)
    requires forall t :: t in typesAgain ==> t in types
    ensures Passes(WorkerOf(again), typesAgain, |typesAgain|, after) == after
    ensures Totals(WorkerOf(again), rank, typesAgain, |typesAgain|, after).updated == 0
    ensures Totals(WorkerOf(again), rank, typesAgain, |typesAgain|, after).errors == 0
  {
    var done: Row -> bool := row => !RowNeeds(env.settings, row);
    WorkerKeepsIds(env);
    WorkerFinishes(env);
    CleanRunFinishes(WorkerOf(env), done, rank, types, rows, after);
    DoneRunKeepsRows(WorkerOf(again), done, rank, typesAgain, |typesAgain|, after);
    DoneRunIsIdle(WorkerOf(again), done, rank, typesAgain, |typesAgain|, after);
  }

  lemma {:induction false} OffRunChangesNothing(env: Env, types: seq<string>, k: nat, rows: seq<Row>)
    requires Lawful(env.settings.cipher) && !env.settings.enabled && k <= |types|
    ensures Passes(WorkerOf(env), types, k, rows) == rows
  {
    if k > 0 {
      OffRunChangesNothing(env, types, k - 1, rows);
      forall i | 0 <= i < |rows| ensures WorkerOf(env).process(k - 1, rows[i]) == rows[i] {
        ChangedRowIsDone(env, k - 1, rows[i]);
      }
    }
  }

  /** With encryption off the table never changes, so a second run reports what the first did. */
  lemma OffRunRepeats(env: Env, rank: Rank, types: seq<string>, rows: seq<Row>, after: seq<Row>)
    requires Lawful(env.settings.cipher) && !env.settings.enabled
    requires after == Passes(WorkerOf(env), types, |types|, rows)
    ensures after == rows
    ensures Totals(WorkerOf(env), rank, types, |types|, after) == Totals(WorkerOf(env), rank, types, |types|, rows)
  {
    OffRunChangesNothing(env, types, |types|, rows);
  }

  // ---------------------------------------------------------------------------
  // What the counters say about the table
  // ---------------------------------------------------------------------------

  /** With encryption on, the upgrade of a row that needs it changes it. */
  lemma UpgradeChanges(env: Env, pass: nat, row: Row)
    requires Lawful(env.settings.cipher) && env.settings.enabled && RowNeeds(env.settings, row)
    ensures UpgradedRow(env, pass, row) != row
  {
    UpgradeSettles(env.settings, row.entityType, row.properties, env.nonces(pass, row.id));
    assert !RowNeeds(env.settings, UpgradedRow(env, pass, row));
  }

  ghost predicate NoneLost(env: Env) {
    forall pass, id :: !env.fault(pass, id).UpdateLost?
  }

  /** A row is changed once, when it is counted as updated, or as failed if its update was lost. */
  lemma {:induction false} RowIsCounted(env: Env, types: seq<string>, k: nat, row: Row)
    requires Lawful(env.settings.cipher) && env.settings.enabled && !env.dryRun && k <= |types|
    ensures var w := WorkerOf(env);
      var updated, failed := OutcomesOf(w, types, k, row, Updated), OutcomesOf(w, types, k, row, Failed);
      var changed := if RowAfter(w, types, k, row) != row then 1 else 0;
      && updated <= changed <= updated + failed && (NoneLost(env) ==> updated == changed)
      && (changed == 1 ==> !RowNeeds(env.settings, RowAfter(w, types, k, row)))
  {
    if k > 0 {
      RowIsCounted(env, types, k - 1, row);
      WorkerKeepsIds(env);
      RowKeepsIdentity(WorkerOf(env), types, k - 1, row);
      var before := RowAfter(WorkerOf(env), types, k - 1, row);
      ChangedRowIsDone(env, k - 1, before);
      if RowNeeds(env.settings, before) { UpgradeChanges(env, k - 1, before); }
    }
  }

  /**
   A run that writes counts as updated rows it has changed, and every changed row as updated or failed;
   when no update is applied and yet reported as failed, the count is the number of rows changed.
   */
  lemma UpdatedIsChanged(env: Env, rank: Rank, types: seq<string>, rows: seq<Row>, after: seq<Row>)
    requires Lawful(env.settings.cipher) && env.settings.enabled && !env.dryRun && Table(rank, rows)
    requires after == Passes(WorkerOf(env), types, |types|, rows)
    ensures |after| == |rows|
    ensures var r := Totals(WorkerOf(env), rank, types, |types|, rows);
      && r.updated <= Differing(rows, after) <= r.updated + r.errors
      && (NoneLost(env) ==> r.updated == Differing(rows, after))
  {
    WorkerKeepsIds(env);
    CountersAreSums(WorkerOf(env), rank, types, |types|, rows);
    PassesRowwise(WorkerOf(env), types, |types|, rows);
    SumsAreDiffering(env, types, rows, after);
  }

  lemma {:induction false} SumsAreDiffering(env: Env, types: seq<string>, rows: seq<Row>, after: seq<Row>)
    requires Lawful(env.settings.cipher) && env.settings.enabled && !env.dryRun && |after| == |rows|
    requires forall i :: 0 <= i < |rows| ==> after[i] == RowAfter(WorkerOf(env), types, |types|, rows[i])
    ensures var w, k := WorkerOf(env), |types|;
      var updated, failed := SumOf(w, types, k, rows, Updated), SumOf(w, types, k, rows, Failed);
      && updated <= Differing(rows, after) <= updated + failed
      && (NoneLost(env) ==> updated == Differing(rows, after))
  {
    if rows != [] {
      RowIsCounted(env, types, |types|, rows[0]);
      SumsAreDiffering(env, types, rows[1..], after[1..]);
    }
  }

  /** No fault of a write, which a dry run cannot meet. */
  ghost predicate WritesSucceed(env: Env) {
    forall pass, id :: env.fault(pass, id).NoFault? || env.fault(pass, id).EncryptFails?
  }

  lemma {:induction false} SameOutcomes(env: Env, types: seq<string>, k: nat, row: Row, o: Outcome)
    requires WritesSucceed(env) && DistinctTypes(types) && k <= |types|
    ensures OutcomesOf(WorkerOf(env.(dryRun := true)), types, k, row, o)
      == OutcomesOf(WorkerOf(env.(dryRun := false)), types, k, row, o)
  {
    if k > 0 {
      var dry, wet := env.(dryRun := true), env.(dryRun := false);
      SameOutcomes(env, types, k - 1, row, o);
      WorkerKeepsIds(dry);
      WorkerKeepsIds(wet);
      ProcessedOnce(WorkerOf(dry), types, k - 1, row, k - 1);
      ProcessedOnce(WorkerOf(wet), types, k - 1, row, k - 1);
    }
  }

  lemma {:induction false} SameSums(env: Env, types: seq<string>, rows: seq<Row>, o: Outcome)
    requires WritesSucceed(env) && DistinctTypes(types)
    ensures SumOf(WorkerOf(env.(dryRun := true)), types, |types|, rows, o)
      == SumOf(WorkerOf(env.(dryRun := false)), types, |types|, rows, o)
  {
    if rows != [] {
      SameOutcomes(env, types, |types|, rows[0], o);
      SameSums(env, types, rows[1..], o);
    }
  }

  lemma {:induction false} DryRunKeepsRows(env: Env, types: seq<string>, k: nat, rows: seq<Row>)
    requires env.dryRun && k <= |types|
    ensures Passes(WorkerOf(env), types, k, rows) == rows
  {
    if k > 0 { DryRunKeepsRows(env, types, k - 1, rows); }
  }

  lemma {:induction false} SameFlag(w: Worker, rank: Rank, types: seq<string>, k: nat, rows: seq<Row>)
    requires k <= |types|
    ensures Totals(w, rank, types, k, rows).dryRun == w.dryRun
  {
    if k > 0 { SameFlag(w, rank, types, k - 1, rows); }
  }

  /** A dry run changes nothing and reports what the run would, over distinct types and writes that succeed. */
  lemma DryRunForetells(env: Env, rank: Rank, types: seq<string>, rows: seq<Row>)
    requires WritesSucceed(env) && DistinctTypes(types) && Table(rank, rows)
    ensures var dry, wet := WorkerOf(env.(dryRun := true)), WorkerOf(env.(dryRun := false));
      && Passes(dry, types, |types|, rows) == rows
      && Totals(dry, rank, types, |types|, rows) == Totals(wet, rank, types, |types|, rows).(dryRun := true)
  {
    var dry, wet := env.(dryRun := true), env.(dryRun := false);
    DryRunKeepsRows(dry, types, |types|, rows);
    WorkerKeepsIds(dry);
    WorkerKeepsIds(wet);
    CountersAreSums(WorkerOf(dry), rank, types, |types|, rows);
    CountersAreSums(WorkerOf(wet), rank, types, |types|, rows);
    SameSums(env, types, rows, Updated);
    SameSums(env, types, rows, Skipped);
    SameSums(env, types, rows, Failed);
    CountersAddUp(WorkerOf(dry), rank, types, |types|, rows);
    CountersAddUp(WorkerOf(wet), rank, types, |types|, rows);
    SameFlag(WorkerOf(dry), rank, types, |types|, rows);
  }
}
