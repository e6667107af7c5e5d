/**
 The batch loops of the backfill, for any treatment of the single row: which rows a pass visits,
 what a run of passes does to each row and what it counts.
 */
module BackfillPasses {
  import opened EntityTable

  datatype Outcome = Skipped | Updated | Failed

  /** What becomes of a row and how it is counted, by pass. */
  datatype Worker = Worker(dryRun: bool, outcome: (nat, Row) -> Outcome, process: (nat, Row) -> Row)

  /** Processing a row leaves its id and type alone. */
  ghost predicate KeepsIds(w: Worker) {
    forall pass, row :: w.process(pass, row).id == row.id && w.process(pass, row).entityType == row.entityType
  }

  /** The table once the given rows have been visited. */
  function WithVisited(w: Worker, pass: nat, rows: seq<Row>, visited: seq<Row>): seq<Row> {
    seq(|rows|, i requires 0 <= i < |rows| => if rows[i] in visited then w.process(pass, rows[i]) else rows[i])
  }

  datatype BackfillResult = BackfillResult(scanned: nat, updated: nat, skipped: nat, errors: nat, dryRun: bool)

  function AddOutcome(r: BackfillResult, o: Outcome): BackfillResult {
    match o
    case Skipped => r.(skipped := r.skipped + 1)
    case Updated => r.(updated := r.updated + 1)
    case Failed => r.(errors := r.errors + 1)
  }

  /** How many of the rows have the outcome. */
  function CountOf(w: Worker, pass: nat, visited: seq<Row>, o: Outcome): nat {
    if visited == [] then 0
    else
      var last := |visited| - 1;
      CountOf(w, pass, visited[..last], o) + (if w.outcome(pass, visited[last]) == o then 1 else 0)
  }

  /** The counters `r` with the rows scanned and the outcomes of those visited added. */
  function AddOutcomes(w: Worker, pass: nat, r: BackfillResult, scanned: nat, visited: seq<Row>): BackfillResult {
    BackfillResult(
      r.scanned + scanned,
      r.updated + CountOf(w, pass, visited, Updated),
      r.skipped + CountOf(w, pass, visited, Skipped),
      r.errors + CountOf(w, pass, visited, Failed),
      r.dryRun)
  }

  /** The rows of a type are all processed, the others are untouched. */
  function Pass(w: Worker, pass: nat, entityType: string, rows: seq<Row>): seq<Row> {
    seq(|rows|, i requires 0 <= i < |rows| =>
      if rows[i].entityType == entityType then w.process(pass, rows[i]) else rows[i])
  }

  function PassResult(
      w: Worker, rank: Rank, pass: nat, entityType: string, rows: seq<Row>, r: BackfillResult): BackfillResult {
    var all := After(rank, rows, entityType, "");
    AddOutcomes(w, pass, r, |all|, all)
  }

  lemma VisitNext(w: Worker, pass: nat, rank: Rank, rows: seq<Row>, visited: seq<Row>, row: Row)
    requires KeepsIds(w) && Table(rank, rows) && row in rows
    ensures var now, next := WithVisited(w, pass, rows, visited), WithVisited(w, pass, rows, visited + [row]);
      && next == Update(now, row.id, row.entityType, w.process(pass, row).properties)
      && (w.process(pass, row) == row ==> next == now)
  {
    forall i | 0 <= i < |rows| ensures rows[i].id == row.id <==> rows[i] == row {
      var k :| 0 <= k < |rows| && rows[k] == row;
      assert i < k ==> rank(rows[i].id) < rank(rows[k].id);
      assert k < i ==> rank(rows[k].id) < rank(rows[i].id);
    }
    assert forall r :: r in visited + [row] <==> r in visited || r == row;
  }

  lemma OutcomesAppend(w: Worker, pass: nat, r: BackfillResult, visited: seq<Row>, row: Row)
    ensures AddOutcomes(w, pass, r, 0, visited + [row]) ==
      AddOutcome(AddOutcomes(w, pass, r, 0, visited), w.outcome(pass, row))
  {
    assert (visited + [row])[..|visited|] == visited;
  }

  lemma {:induction false} CountConcat(w: Worker, pass: nat, a: seq<Row>, b: seq<Row>, o: Outcome)
    ensures CountOf(w, pass, a + b, o) == CountOf(w, pass, a, o) + CountOf(w, pass, b, o)
  {
    if b == [] {
      assert a + b == a;
    } else {
      var front := b[..|b| - 1];
      CountConcat(w, pass, a, front, o);
      assert (a + b)[..|a + b| - 1] == a + front;
    }
  }

  /** Adding a batch to the counters of the earlier rows. */
  lemma OutcomesConcat(w: Worker, pass: nat, r: BackfillResult, a: seq<Row>, b: seq<Row>)
    ensures AddOutcomes(w, pass, AddOutcomes(w, pass, r, |a|, a), |b|, b) == AddOutcomes(w, pass, r, |a + b|, a + b)
  {
    CountConcat(w, pass, a, b, Updated);
    CountConcat(w, pass, a, b, Skipped);
    CountConcat(w, pass, a, b, Failed);
  }

  /** Visited rows that are not behind the cursor do not change what the next SELECT returns. */
  lemma {:induction false} SelectIgnoresVisited(w: Worker, pass: nat, rank: Rank, rows: seq<Row>, visited: seq<Row>,
                                                entityType: string, cursor: string)
    requires KeepsIds(w) && forall row :: row in visited ==> rank(row.id) <= rank(cursor)
    ensures After(rank, WithVisited(w, pass, rows, visited), entityType, cursor)
      == After(rank, rows, entityType, cursor)
  {
    if rows != [] {
      SelectIgnoresVisited(w, pass, rank, rows[1..], visited, entityType, cursor);
      assert WithVisited(w, pass, rows, visited)[1..] == WithVisited(w, pass, rows[1..], visited);
    }
  }

  /** `all` is what the loop has to visit: the rows of the type. */
  ghost predicate ToVisit(rank: Rank, rows0: seq<Row>, entityType: string, all: seq<Row>) {
    Table(rank, rows0) && all == After(rank, rows0, entityType, "")
  }

  /** The variables of the batch loop. */
  datatype LoopState = LoopState(rows: seq<Row>, result: BackfillResult, cursor: string)

  /** The loop's state once the first `n` rows are visited: the cursor is at the last of them. */
  function StateAt(w: Worker, pass: nat, rows0: seq<Row>, all: seq<Row>, r: BackfillResult, n: nat): LoopState
    requires n <= |all|
  {
    LoopState(
      WithVisited(w, pass, rows0, all[..n]),
      AddOutcomes(w, pass, r, n, all[..n]),
      if n == 0 then "" else all[n - 1].id)
  }

  lemma PassStarts(w: Worker, pass: nat, rows0: seq<Row>, all: seq<Row>, r: BackfillResult)
    ensures StateAt(w, pass, rows0, all, r, 0) == LoopState(rows0, r, "")
  {
    assert all[..0] == [];
    NothingVisited(w, pass, rows0);
  }

  /** Behind the cursor are the rows not yet visited. */
  lemma BehindCursor(w: Worker, pass: nat, rank: Rank, rows0: seq<Row>, entityType: string, all: seq<Row>,
                     n: nat, rows: seq<Row>, cursor: string)
    requires KeepsIds(w) && ToVisit(rank, rows0, entityType, all) && n <= |all|
    requires cursor == (if n == 0 then "" else all[n - 1].id) && rows == WithVisited(w, pass, rows0, all[..n])
    ensures After(rank, rows, entityType, cursor) == all[n..]
  {
    if n > 0 { CursorMoves(rank, rows0, entityType, "", n - 1); }
    forall row | row in all[..n] ensures rank(row.id) <= rank(cursor) {
      var i :| 0 <= i < n && all[i] == row;
      if i < n - 1 { AfterAscends(rank, rows0, entityType, "", i, n - 1); }
    }
    SelectIgnoresVisited(w, pass, rank, rows0, all[..n], entityType, cursor);
  }

  lemma ToVisitAreRows(rank: Rank, rows0: seq<Row>, entityType: string, all: seq<Row>)
    requires ToVisit(rank, rows0, entityType, all)
    ensures forall row :: row in all ==> row in rows0 && row.entityType == entityType
  {
    forall row | row in all ensures row in rows0 && row.entityType == entityType {
      AfterMembers(rank, rows0, entityType, "", row);
    }
  }

  /** The next batch is the next part of the rows of the type. */
  lemma NextBatch(w: Worker, pass: nat, rank: Rank, rows0: seq<Row>, entityType: string, all: seq<Row>,
                  r: BackfillResult, n: nat, rows: seq<Row>, result: BackfillResult, cursor: string,
                  limit: nat, batch: seq<Row>)
    requires ToVisit(rank, rows0, entityType, all) && n <= |all|
    requires LoopState(rows, result, cursor) == StateAt(w, pass, rows0, all, r, n)
    requires KeepsIds(w) && batch == Select(rank, rows, entityType, cursor, limit)
    ensures n + |batch| <= |all| && batch == all[n..n + |batch|]
    ensures batch == [] <==> limit == 0 || n == |all|
  {
    BehindCursor(w, pass, rank, rows0, entityType, all, n, rows, cursor);
  }

  lemma SplitAt(all: seq<Row>, n: nat, batch: seq<Row>)
    requires n + |batch| <= |all| && batch == all[n..n + |batch|]
    ensures all[..n + |batch|] == all[..n] + batch && |all[..n]| == n && |all[..n] + batch| == n + |batch|
    ensures batch != [] ==> all[n + |batch| - 1] == batch[|batch| - 1]
  {
  }

  lemma PassAdvances(w: Worker, pass: nat, rows0: seq<Row>, all: seq<Row>, r: BackfillResult,
                     n: nat, before: BackfillResult, batch: seq<Row>, rows: seq<Row>, result: BackfillResult)
    requires batch != [] && n + |batch| <= |all| && batch == all[n..n + |batch|]
    requires before == AddOutcomes(w, pass, r, n, all[..n])
    requires rows == WithVisited(w, pass, rows0, all[..n] + batch)
    requires result == AddOutcomes(w, pass, before, |batch|, batch)
    ensures LoopState(rows, result, batch[|batch| - 1].id) == StateAt(w, pass, rows0, all, r, n + |batch|)
  {
    OutcomesConcat(w, pass, r, all[..n], batch);
    SplitAt(all, n, batch);
  }

  lemma PassEnds(w: Worker, pass: nat, rank: Rank, rows0: seq<Row>, entityType: string, all: seq<Row>,
                 r: BackfillResult, n: nat, rows: seq<Row>, result: BackfillResult, cursor: string)
    requires ToVisit(rank, rows0, entityType, all) && n <= |all|
    requires LoopState(rows, result, cursor) == StateAt(w, pass, rows0, all, r, n)
    requires KeepsIds(w)
    ensures n == |all| ==>
      rows == Pass(w, pass, entityType, rows0) && result == PassResult(w, rank, pass, entityType, rows0, r)
    ensures n == 0 ==> rows == rows0 && result == r
    ensures n == 0 || n == |all| ==> Table(rank, rows)
  {
    NothingVisited(w, pass, rows0);
    AllVisited(w, pass, rank, rows0, entityType);
    PassKeepsTable(w, rank, pass, entityType, rows0);
    assert all[..|all|] == all && all[..0] == [];
  }

  lemma AllVisited(w: Worker, pass: nat, rank: Rank, rows: seq<Row>, entityType: string)
    requires Table(rank, rows)
    ensures WithVisited(w, pass, rows, After(rank, rows, entityType, "")) == Pass(w, pass, entityType, rows)
  {
    forall i | 0 <= i < |rows|
      ensures rows[i] in After(rank, rows, entityType, "") <==> rows[i].entityType == entityType
    {
      AfterMembers(rank, rows, entityType, "", rows[i]);
    }
  }

  lemma NothingVisited(w: Worker, pass: nat, rows: seq<Row>)
    ensures WithVisited(w, pass, rows, []) == rows
  {
  }

  // ---------------------------------------------------------------------------
  // A run
  // ---------------------------------------------------------------------------

  /** The table after the first `k` types. */
  function Passes(w: Worker, types: seq<string>, k: nat, rows: seq<Row>): seq<Row>
    requires k <= |types|
  {
    if k == 0 then rows else Pass(w, k - 1, types[k - 1], Passes(w, types, k - 1, rows))
  }

  function Totals(w: Worker, rank: Rank, types: seq<string>, k: nat, rows: seq<Row>): BackfillResult
    requires k <= |types|
  {
    if k == 0 then BackfillResult(0, 0, 0, 0, w.dryRun)
    else PassResult(w, rank, k - 1, types[k - 1], Passes(w, types, k - 1, rows), Totals(w, rank, types, k - 1, rows))
  }

  lemma PassKeepsTable(w: Worker, rank: Rank, pass: nat, entityType: string, rows: seq<Row>)
    requires KeepsIds(w) && Table(rank, rows)
    ensures Table(rank, Pass(w, pass, entityType, rows))
  {
    var rows' := Pass(w, pass, entityType, rows);
    assert forall i :: 0 <= i < |rows| ==> rows'[i].id == rows[i].id;
  }

  lemma TakeNext(visited: seq<Row>, batch: seq<Row>, i: nat)
    requires i < |batch|
    ensures visited + batch[..i + 1] == visited + batch[..i] + [batch[i]]
    ensures batch[..i + 1] == batch[..i] + [batch[i]]
  {
  }

  // ---------------------------------------------------------------------------
  // What a run does to each row
  // ---------------------------------------------------------------------------

  /** A row after the first `k` types: its own type's passes process it. */
  function RowAfter(w: Worker, types: seq<string>, k: nat, row: Row): Row
    requires k <= |types|
  {
    if k == 0 then row
    else
      var before := RowAfter(w, types, k - 1, row);
      if before.entityType == types[k - 1] then w.process(k - 1, before) else before
  }

  lemma {:induction false} PassesRowwise(w: Worker, types: seq<string>, k: nat, rows: seq<Row>)
    requires k <= |types|
    ensures |Passes(w, types, k, rows)| == |rows|
    ensures forall i :: 0 <= i < |rows| ==> Passes(w, types, k, rows)[i] == RowAfter(w, types, k, rows[i])
  {
    if k > 0 { PassesRowwise(w, types, k - 1, rows); }
  }

  lemma {:induction false} RowKeepsIdentity(w: Worker, types: seq<string>, k: nat, row: Row)
    requires KeepsIds(w) && k <= |types|
    ensures RowAfter(w, types, k, row).id == row.id && RowAfter(w, types, k, row).entityType == row.entityType
  {
    if k > 0 { RowKeepsIdentity(w, types, k - 1, row); }
  }

  ghost predicate DistinctTypes(types: seq<string>) {
    forall i, j :: 0 <= i < j < |types| ==> types[i] != types[j]
  }

  /** When every type is listed once, a row is processed once if its type is listed, and otherwise not at all. */
  lemma {:induction false} ProcessedOnce(w: Worker, types: seq<string>, k: nat, row: Row, pass: nat)
    requires KeepsIds(w) && DistinctTypes(types)
    requires k <= |types| && pass < |types|
    ensures row.entityType == types[pass] ==>
      RowAfter(w, types, k, row) == if pass < k then w.process(pass, row) else row
    ensures row.entityType !in types ==> RowAfter(w, types, k, row) == row
  {
    if k > 0 {
      ProcessedOnce(w, types, k - 1, row, pass);
      RowKeepsIdentity(w, types, k - 1, row);
    }
  }

  // ---------------------------------------------------------------------------
  // What a run reports
  // ---------------------------------------------------------------------------

  lemma {:induction false} OutcomesPartition(w: Worker, pass: nat, visited: seq<Row>)
    ensures CountOf(w, pass, visited, Updated) + CountOf(w, pass, visited, Skipped)
      + CountOf(w, pass, visited, Failed) == |visited|
  {
    if visited != [] { OutcomesPartition(w, pass, visited[..|visited| - 1]); }
  }

  /** What the last of `k` passes adds to the counters. */
  lemma TotalsStep(w: Worker, rank: Rank, types: seq<string>, k: nat, rows: seq<Row>)
    requires 0 < k <= |types|
    ensures var all := After(rank, Passes(w, types, k - 1, rows), types[k - 1], "");
      var r, r' := Totals(w, rank, types, k - 1, rows), Totals(w, rank, types, k, rows);
      && r'.scanned == r.scanned + |all|
      && r'.updated == r.updated + CountOf(w, k - 1, all, Updated)
      && r'.skipped == r.skipped + CountOf(w, k - 1, all, Skipped)
      && r'.errors == r.errors + CountOf(w, k - 1, all, Failed)
  {
  }

  /** Every scanned row is counted once more, as updated, skipped or failed. */
  lemma {:induction false} CountersAddUp(w: Worker, rank: Rank, types: seq<string>, k: nat, rows: seq<Row>)
    requires k <= |types|
    ensures var r := Totals(w, rank, types, k, rows); r.scanned == r.updated + r.skipped + r.errors
  {
    if k > 0 {
      TotalsStep(w, rank, types, k, rows);
      CountersAddUp(w, rank, types, k - 1, rows);
      OutcomesPartition(w, k - 1, After(rank, Passes(w, types, k - 1, rows), types[k - 1], ""));
    }
  }

  /** The rows whose type is among the first `k`. */
  function Eligible(types: seq<string>, k: nat, rows: seq<Row>): seq<Row>
    requires k <= |types|
  {
    if rows == [] then []
    else (if rows[0].entityType in types[..k] then [rows[0]] else []) + Eligible(types, k, rows[1..])
  }

  lemma {:induction false} OneMoreType(rank: Rank, types: seq<string>, k: nat, rows: seq<Row>)
    requires 0 < k <= |types| && types[k - 1] !in types[..k - 1] && Table(rank, rows)
    ensures |Eligible(types, k, rows)| == |Eligible(types, k - 1, rows)| + |After(rank, rows, types[k - 1], "")|
  {
    if rows != [] {
      OneMoreType(rank, types, k, rows[1..]);
      assert types[..k] == types[..k - 1] + [types[k - 1]];
    }
  }

  lemma {:induction false} PassesKeepCounts(
      w: Worker, rank: Rank, types: seq<string>, k: nat, rows: seq<Row>, entityType: string)
    requires KeepsIds(w) && k <= |types|
    ensures |After(rank, Passes(w, types, k, rows), entityType, "")| == |After(rank, rows, entityType, "")|
    decreases |rows|
  {
    PassesRowwise(w, types, k, rows);
    if rows != [] {
      RowKeepsIdentity(w, types, k, rows[0]);
      PassesRowwise(w, types, k, rows[1..]);
      assert Passes(w, types, k, rows)[1..] == Passes(w, types, k, rows[1..]);
      PassesKeepCounts(w, rank, types, k, rows[1..], entityType);
    }
  }

  lemma {:induction false} NoneEligible(types: seq<string>, rows: seq<Row>)
    ensures Eligible(types, 0, rows) == []
  {
    if rows != [] { NoneEligible(types, rows[1..]); }
  }

  /** A pass scans the rows of its type. */
  lemma PassScans(w: Worker, rank: Rank, types: seq<string>, k: nat, rows: seq<Row>)
    requires KeepsIds(w) && 0 < k <= |types|
    ensures Totals(w, rank, types, k, rows).scanned ==
      Totals(w, rank, types, k - 1, rows).scanned + |After(rank, rows, types[k - 1], "")|
  {
    TotalsStep(w, rank, types, k, rows);
    PassesKeepCounts(w, rank, types, k - 1, rows, types[k - 1]);
  }

  /** When every type is listed once, each eligible row is scanned exactly once. */
  lemma {:induction false} ScannedIsEligible(w: Worker, rank: Rank, types: seq<string>, k: nat, rows: seq<Row>)
    requires KeepsIds(w) && DistinctTypes(types)
    requires k <= |types| && Table(rank, rows)
    ensures Totals(w, rank, types, k, rows).scanned == |Eligible(types, k, rows)|
  {
    if k == 0 {
      NoneEligible(types, rows);
    } else {
      ScannedIsEligible(w, rank, types, k - 1, rows);
      PassScans(w, rank, types, k, rows);
      OneMoreType(rank, types, k, rows);
    }
  }

  /** How often the row comes out so in the first `k` passes. */
  ghost function OutcomesOf(w: Worker, types: seq<string>, k: nat, row: Row, o: Outcome): nat
    requires k <= |types|
  {
    if k == 0 then 0
    else
      OutcomesOf(w, types, k - 1, row, o) +
      (if row.entityType == types[k - 1] && w.outcome(k - 1, RowAfter(w, types, k - 1, row)) == o then 1 else 0)
  }

  ghost function SumOf(w: Worker, types: seq<string>, k: nat, rows: seq<Row>, o: Outcome): nat
    requires k <= |types|
  {
    if rows == [] then 0 else OutcomesOf(w, types, k, rows[0], o) + SumOf(w, types, k, rows[1..], o)
  }

  lemma {:induction false} NothingSummed(w: Worker, types: seq<string>, rows: seq<Row>, o: Outcome)
    ensures SumOf(w, types, 0, rows, o) == 0
  {
    if rows != [] { NothingSummed(w, types, rows[1..], o); }
  }

  /** The last pass counts the rows of its type, as the passes before have left them. */
  lemma {:induction false} SumStep(w: Worker, rank: Rank, types: seq<string>, k: nat, rows: seq<Row>, o: Outcome)
    requires KeepsIds(w) && 0 < k <= |types| && Table(rank, rows)
    ensures SumOf(w, types, k, rows, o) == SumOf(w, types, k - 1, rows, o)
      + CountOf(w, k - 1, After(rank, Passes(w, types, k - 1, rows), types[k - 1], ""), o)
    decreases |rows|
  {
    var before := Passes(w, types, k - 1, rows);
    PassesRowwise(w, types, k - 1, rows);
    if rows != [] {
      RowKeepsIdentity(w, types, k - 1, rows[0]);
      PassesRowwise(w, types, k - 1, rows[1..]);
      assert before[1..] == Passes(w, types, k - 1, rows[1..]);
      SumStep(w, rank, types, k, rows[1..], o);
      CountHead(w, k - 1, rank, before, types[k - 1], o);
    }
  }

  lemma CountHead(w: Worker, pass: nat, rank: Rank, rows: seq<Row>, entityType: string, o: Outcome)
    requires rows != [] && rank("") < rank(rows[0].id)
    ensures CountOf(w, pass, After(rank, rows, entityType, ""), o) ==
      (if rows[0].entityType == entityType && w.outcome(pass, rows[0]) == o then 1 else 0)
      + CountOf(w, pass, After(rank, rows[1..], entityType, ""), o)
  {
    var head := if rows[0].entityType == entityType then [rows[0]] else [];
    CountConcat(w, pass, head, After(rank, rows[1..], entityType, ""), o);
    assert head != [] ==> head[..0] == [];
  }

  /** Each counter of a run is the sum of the rows' outcomes. */
  lemma {:induction false} CountersAreSums(w: Worker, rank: Rank, types: seq<string>, k: nat, rows: seq<Row>)
    requires KeepsIds(w) && k <= |types| && Table(rank, rows)
    ensures var r := Totals(w, rank, types, k, rows);
      && r.updated == SumOf(w, types, k, rows, Updated)
      && r.skipped == SumOf(w, types, k, rows, Skipped)
      && r.errors == SumOf(w, types, k, rows, Failed)
  {
    if k == 0 {
      NothingSummed(w, types, rows, Updated);
      NothingSummed(w, types, rows, Skipped);
      NothingSummed(w, types, rows, Failed);
    } else {
      CountersAreSums(w, rank, types, k - 1, rows);
      TotalsStep(w, rank, types, k, rows);
      SumStep(w, rank, types, k, rows, Updated);
      SumStep(w, rank, types, k, rows, Skipped);
      SumStep(w, rank, types, k, rows, Failed);
    }
  }

  /** How many rows differ between two tables. */
  ghost function Differing(before: seq<Row>, after: seq<Row>): nat
    requires |before| == |after|
  {
    if before == [] then 0
    else (if before[0] != after[0] then 1 else 0) + Differing(before[1..], after[1..])
  }

  // ---------------------------------------------------------------------------
  // Rows that are done
  // ---------------------------------------------------------------------------

  /** Rows that are done are skipped, and a row that a pass changes or does not fail on is done. */
  ghost predicate Finishes(w: Worker, done: Row -> bool) {
    && SkipsDone(w, done)
    && forall pass, row :: w.process(pass, row) != row || w.outcome(pass, row) != Failed ==> done(w.process(pass, row))
  }

  lemma {:induction false} CountIsZero(w: Worker, pass: nat, visited: seq<Row>, o: Outcome)
    ensures CountOf(w, pass, visited, o) == 0 <==> forall row :: row in visited ==> w.outcome(pass, row) != o
  {
    if visited != [] {
      var front, last := visited[..|visited| - 1], visited[|visited| - 1];
      CountIsZero(w, pass, front, o);
      assert visited == front + [last];
    }
  }

  /** Pass `p` does not fail on the row. */
  ghost predicate CleanAt(w: Worker, types: seq<string>, p: nat, row: Row)
    requires p < |types|
  {
    types[p] == row.entityType ==> w.outcome(p, RowAfter(w, types, p, row)) != Failed
  }

  ghost predicate RowIsClean(w: Worker, types: seq<string>, k: nat, row: Row)
    requires k <= |types|
  {
    forall p :: 0 <= p < k ==> CleanAt(w, types, p, row)
  }

  lemma StaysDone(w: Worker, done: Row -> bool, pass: nat, row: Row)
    requires Finishes(w, done) && (done(row) || w.outcome(pass, row) != Failed)
    ensures done(w.process(pass, row))
  {
  }

  lemma {:induction false} CleanRowIsDone(w: Worker, done: Row -> bool, types: seq<string>, k: nat, row: Row, pass: nat)
    requires KeepsIds(w) && Finishes(w, done)
    requires pass < k <= |types| && types[pass] == row.entityType && RowIsClean(w, types, k, row)
    ensures done(RowAfter(w, types, k, row))
  {
    var before := RowAfter(w, types, k - 1, row);
    RowKeepsIdentity(w, types, k - 1, row);
    if pass < k - 1 {
      CleanRowIsDone(w, done, types, k - 1, row, pass);
    }
    if types[k - 1] == row.entityType {
      assert CleanAt(w, types, k - 1, row);
      StaysDone(w, done, k - 1, before);
    }
  }

  /** A run without errors fails on no row. */
  lemma {:induction false} CleanRunIsClean(
      w: Worker, rank: Rank, types: seq<string>, k: nat, rows: seq<Row>, p: nat, i: nat)
    requires KeepsIds(w) && Table(rank, rows) && i < |rows|
    requires k <= |types| && Totals(w, rank, types, k, rows).errors == 0
    requires p < k && types[p] == rows[i].entityType
    ensures w.outcome(p, RowAfter(w, types, p, rows[i])) != Failed
  {
    TotalsStep(w, rank, types, k, rows);
    if p < k - 1 {
      CleanRunIsClean(w, rank, types, k - 1, rows, p, i);
    } else {
      PassIsClean(w, rank, types, p, rows, i);
    }
  }

  lemma PassIsClean(w: Worker, rank: Rank, types: seq<string>, p: nat, rows: seq<Row>, i: nat)
    requires KeepsIds(w) && Table(rank, rows) && i < |rows|
    requires p < |types| && types[p] == rows[i].entityType
    requires CountOf(w, p, After(rank, Passes(w, types, p, rows), types[p], ""), Failed) == 0
    ensures w.outcome(p, RowAfter(w, types, p, rows[i])) != Failed
  {
    var before := Passes(w, types, p, rows);
    PassesRowwise(w, types, p, rows);
    RowKeepsIdentity(w, types, p, rows[i]);
    AfterMembers(rank, before, types[p], "", before[i]);
    CountIsZero(w, p, After(rank, before, types[p], ""), Failed);
  }

  /** The rows of the listed types are done. */
  ghost predicate AllDone(done: Row -> bool, types: seq<string>, rows: seq<Row>) {
    forall row :: row in rows && row.entityType in types ==> done(row)
  }

  /** A run without errors leaves all rows of its types done. */
  lemma CleanRunFinishes(w: Worker, done: Row -> bool, rank: Rank, types: seq<string>, rows: seq<Row>, after: seq<Row>)
    requires KeepsIds(w) && Finishes(w, done)
    requires Table(rank, rows) && Totals(w, rank, types, |types|, rows).errors == 0
    requires after == Passes(w, types, |types|, rows)
    ensures AllDone(done, types, after)
  {
    PassesRowwise(w, types, |types|, rows);
    forall i | 0 <= i < |rows| && after[i].entityType in types ensures done(after[i]) {
      RowKeepsIdentity(w, types, |types|, rows[i]);
      var pass :| 0 <= pass < |types| && types[pass] == rows[i].entityType;
      forall p | 0 <= p < |types| ensures CleanAt(w, types, p, rows[i]) {
        if types[p] == rows[i].entityType { CleanRunIsClean(w, rank, types, |types|, rows, p, i); }
      }
      CleanRowIsDone(w, done, types, |types|, rows[i], pass);
    }
  }

  /** A run over rows that are done changes nothing. */
  lemma {:induction false} DoneRunKeepsRows(
      w: Worker, done: Row -> bool, rank: Rank, types: seq<string>, k: nat, rows: seq<Row>)
    requires SkipsDone(w, done) && k <= |types| && AllDone(done, types, rows)
    ensures Passes(w, types, k, rows) == rows
  {
    if k > 0 {
      DoneRunKeepsRows(w, done, rank, types, k - 1, rows);
      DonePassIsIdle(w, done, rank, types, k - 1, rows);
    }
  }

  /** Nor does it report an update or an error. */
  lemma {:induction false} DoneRunIsIdle(
      w: Worker, done: Row -> bool, rank: Rank, types: seq<string>, k: nat, rows: seq<Row>)
    requires SkipsDone(w, done) && k <= |types| && AllDone(done, types, rows)
    ensures Totals(w, rank, types, k, rows).updated == 0 && Totals(w, rank, types, k, rows).errors == 0
  {
    if k > 0 {
      DoneRunIsIdle(w, done, rank, types, k - 1, rows);
      DonePassAddsNothing(w, done, rank, types, k, rows);
    }
  }

  lemma DonePassAddsNothing(w: Worker, done: Row -> bool, rank: Rank, types: seq<string>, k: nat, rows: seq<Row>)
    requires SkipsDone(w, done) && 0 < k <= |types| && AllDone(done, types, rows)
    ensures Totals(w, rank, types, k, rows).updated == Totals(w, rank, types, k - 1, rows).updated
    ensures Totals(w, rank, types, k, rows).errors == Totals(w, rank, types, k - 1, rows).errors
  {
    DoneRunKeepsRows(w, done, rank, types, k - 1, rows);
    DonePassIsIdle(w, done, rank, types, k - 1, rows);
    TotalsStep(w, rank, types, k, rows);
  }

  ghost predicate SkipsDone(w: Worker, done: Row -> bool) {
    forall pass, row :: done(row) ==> w.outcome(pass, row) == Skipped && w.process(pass, row) == row
  }

  lemma DonePassIsIdle(w: Worker, done: Row -> bool, rank: Rank, types: seq<string>, k: nat, rows: seq<Row>)
    requires SkipsDone(w, done) && k < |types| && AllDone(done, types, rows)
    ensures Pass(w, k, types[k], rows) == rows
    ensures var all := After(rank, rows, types[k], "");
      CountOf(w, k, all, Updated) == 0 && CountOf(w, k, all, Failed) == 0
  {
    var all := After(rank, rows, types[k], "");
    forall row | row in all ensures w.outcome(k, row) == Skipped {
      AfterMembers(rank, rows, types[k], "", row);
      assert row.entityType in types && done(row);
    }
    CountIsZero(w, k, all, Updated);
    CountIsZero(w, k, all, Failed);
  }
}
