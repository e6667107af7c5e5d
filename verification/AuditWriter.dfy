/** Appending to the audit log, and runs of appends. */
module AuditWriter {
  import opened Wrappers
  import opened Lex
  import opened CanonicalJson
  import opened AuditHash
  import opened AuditChain

  /** What `writeAuditEvent` is given, with the row id the database will draw. */
  datatype Event = Event(id: Utf16, actorId: Utf16, tenantId: Utf16, topK: Json, ts: Utf16)

  /** `topK` is a number; its text is a number text when it is finite. */
  ghost predicate WellFormedEvent(e: Event) {
    (e.topK.Num? && IsNumberText(e.topK.text)) || e.topK.NonFinite?
  }

  function PayloadOf(e: Event): Payload {
    Payload(e.actorId, Ascii("corpus_chunk.similarity_query"), Ascii("corpus_chunk"), e.tenantId, Null,
            Obj([Member(Ascii("top_k"), e.topK), Member(Ascii("tenant_id"), Str(e.tenantId))]), e.ts)
  }

  lemma PayloadOfIsWellFormed(e: Event)
    requires WellFormedEvent(e)
    ensures WellFormedPayload(PayloadOf(e))
  {
    var members := PayloadOf(e).after.members;
    assert members[0].key[0] != members[1].key[0] || |members[0].key| != |members[1].key|;
    assert forall i :: 0 <= i < |members| ==> WellFormed(members[i].value);
    assert Distinct(Keys(members));
  }

  /** Two events have the same payload exactly when actor, tenant, count and time agree. */
  lemma PayloadsAgreeExactly(e: Event, f: Event)
    ensures SamePayload(PayloadOf(e), PayloadOf(f)) <==>
      e.actorId == f.actorId && e.tenantId == f.tenantId && e.ts == f.ts && Same(e.topK, f.topK)
  {
    var m, n := Ascii("top_k"), Ascii("tenant_id");
    assert |m| != |n|;
    SameTwo(m, e.topK, f.topK, n, Str(e.tenantId), Str(f.tenantId));
  }

  lemma SameTwo(m: Utf16, v: Json, v': Json, n: Utf16, w: Json, w': Json)
    requires m != n
    ensures Same(Obj([Member(m, v), Member(n, w)]), Obj([Member(m, v'), Member(n, w')])) <==>
      Same(v, v') && Same(w, w')
  {
    var a, b := [Member(m, v), Member(n, w)], [Member(m, v'), Member(n, w')];
    assert Keys(a) == [m, n] && Keys(b) == [m, n];
    assert Find(a, m) == 0 && Find(b, m) == 0 && Find(a, n) == 1 && Find(b, n) == 1;
    assert m in Keys(a) && n in Keys(a);
  }

  /** A payload names the actor, the tenant as the entity, what was asked for, and the time. */
  lemma PayloadNames(e: Event)
    ensures var p := PayloadOf(e);
      && p.actorId == e.actorId && p.entityId == e.tenantId && p.ts == e.ts && p.before == Null
      && p.after.Obj? && Keys(p.after.members) == [Ascii("top_k"), Ascii("tenant_id")]
      && p.after.members[0].value == e.topK && p.after.members[1].value == Str(e.tenantId)
  {
  }

  /** Row `a` comes before row `b` when ordered by ts and then by id. */
  predicate Before(a: Row, b: Row) {
    Less(a.payload.ts, b.payload.ts) || (a.payload.ts == b.payload.ts && Less(a.id, b.id))
  }

  function InsertRow(rows: seq<Row>, row: Row): (r: seq<Row>)
    ensures |r| == |rows| + 1
  {
    if rows == [] || !Before(row, rows[|rows| - 1]) then rows + [row]
    else InsertRow(rows[..|rows| - 1], row) + [rows[|rows| - 1]]
  }

  /** The row written for event `e`: it is linked to the row that is last by ts and id. */
  function NextRow(rows: seq<Row>, e: Event, hash: Hash): Row
    requires WellFormedPayload(PayloadOf(e))
  {
    var prevHash := LastHash(rows, GENESIS_HASH);
    Row(e.id, PayloadOf(e), prevHash, hash(HashInput(prevHash, PayloadOf(e))))
  }

  class AuditLog {
    const hash: Hash
    /** The table, read in (ts, id) order. */
    var rows: seq<Row>

    constructor (hash: Hash)
      ensures this.hash == hash && rows == []
    {
      this.hash := hash;
      rows := [];
    }

    /** One serializable transaction; a failing one leaves the table as it was. */
    method WriteAuditEvent(e: Event, fails: bool) returns (r: Result<(), string>)
      requires WellFormedEvent(e)
      modifies this
      ensures r.Failure? <==> fails
      ensures r.Failure? ==> rows == old(rows)
      ensures r.Success? ==>
        WellFormedPayload(PayloadOf(e)) && rows == InsertRow(old(rows), NextRow(old(rows), e, hash))
    {
      PayloadOfIsWellFormed(e);
      var prevHash := if |rows| > 0 then rows[|rows| - 1].hash else GENESIS_HASH;
      var payload := PayloadOf(e);
      var row := Row(e.id, payload, prevHash, hash(HashInput(prevHash, payload)));
      if fails {
        return Failure("ROLLBACK");
      }
      rows := InsertRow(rows, row);
      return Success(());
    }
  }

  /** The table after the events were committed in this order. */
  ghost function WriteAll(events: seq<Event>, hash: Hash): seq<Row>
    requires forall i :: 0 <= i < |events| ==> WellFormedPayload(PayloadOf(events[i]))
  {
    if events == [] then []
    else
      var rows := WriteAll(events[..|events| - 1], hash);
      InsertRow(rows, NextRow(rows, events[|events| - 1], hash))
  }

  /** Every row's link is the genesis hash or the hash of a row of the table. */
  ghost predicate LinksInside(rows: seq<Row>) {
    forall i :: 0 <= i < |rows| ==>
      rows[i].prevHash == GENESIS_HASH || HasHash(rows, rows[i].prevHash)
  }

  ghost predicate HasHash(rows: seq<Row>, h: Utf16) {
    exists j :: 0 <= j < |rows| && rows[j].hash == h
  }

  /** The hash is new to the table. */
  ghost predicate FreshHash(rows: seq<Row>, h: Utf16) {
    h != GENESIS_HASH && !HasHash(rows, h)
  }

  /** The new row is last by ts and id. */
  predicate ComesLast(rows: seq<Row>, row: Row) {
    rows == [] || !Before(row, rows[|rows| - 1])
  }

  lemma {:induction false} InsertRowKeeps(rows: seq<Row>, row: Row)
    ensures forall x :: x in InsertRow(rows, row) <==> x in rows || x == row
  {
    if rows != [] && Before(row, rows[|rows| - 1]) {
      var front, last := rows[..|rows| - 1], rows[|rows| - 1];
      InsertRowKeeps(front, row);
      assert rows == front + [last];
    }
  }

  lemma LinksStayInside(rows: seq<Row>, row: Row)
    requires LinksInside(rows) && row.prevHash == LastHash(rows, GENESIS_HASH)
    ensures LinksInside(InsertRow(rows, row))
  {
    var after := InsertRow(rows, row);
    InsertRowKeeps(rows, row);
    forall i | 0 <= i < |after| && after[i].prevHash != GENESIS_HASH
      ensures HasHash(after, after[i].prevHash)
    {
      assert after[i] in after;
      var x :| x in rows && x.hash == after[i].prevHash;
      assert x in after;
    }
  }

  /** A row that is not last leaves behind it a row that links elsewhere. */
  lemma {:induction false} MisplacedRowBreaks(rows: seq<Row>, row: Row, hash: Hash)
    requires rows != [] && Before(row, rows[|rows| - 1])
    requires forall i :: 0 <= i < |rows| ==> rows[i].prevHash != row.hash
    ensures !Verifies(InsertRow(rows, row), hash, GENESIS_HASH)
  {
    var front, last := rows[..|rows| - 1], rows[|rows| - 1];
    var after := InsertRow(front, row);
    VerifiesAppend(after, last, hash, GENESIS_HASH);
    if front != [] && Before(row, front[|front| - 1]) {
      MisplacedRowBreaks(front, row, hash);
    } else {
      assert LastHash(after, GENESIS_HASH) == row.hash;
    }
  }

  lemma FreshWriteKeepsChain(rows: seq<Row>, row: Row, hash: Hash)
    requires LinksInside(rows) && row.prevHash == LastHash(rows, GENESIS_HASH)
    requires Hashed(row, hash) && FreshHash(rows, row.hash)
    ensures Verifies(InsertRow(rows, row), hash, GENESIS_HASH)
      <==> Verifies(rows, hash, GENESIS_HASH) && ComesLast(rows, row)
  {
    if ComesLast(rows, row) {
      VerifiesAppend(rows, row, hash, GENESIS_HASH);
    } else {
      MisplacedRowBreaks(rows, row, hash);
    }
  }

  /** The rows exhibit two different texts with one hash, or a text that hashes to the genesis value. */
  ghost predicate Broken(rows: seq<Row>, hash: Hash) {
    Collision(hash, rows, rows) || HitsGenesis(rows, GENESIS_HASH)
  }

  ghost predicate DistinctHashes(rows: seq<Row>) {
    forall i, j :: 0 <= i < j < |rows| ==> rows[i].hash != rows[j].hash
  }

  /** A chain that verifies has no two rows with one hash, unless the hash function is broken. */
  lemma VerifiedHashesDiffer(rows: seq<Row>, hash: Hash)
    requires FixedWidth(hash) && Verifies(rows, hash, GENESIS_HASH) && !Broken(rows, hash)
    ensures DistinctHashes(rows)
  {
    forall i, j | 0 <= i < j < |rows| ensures rows[i].hash != rows[j].hash {
      SameHashSamePlace(rows, i, j, hash);
    }
  }

  /** Equal hashes have equal links, so they go back in step until one of them meets the genesis hash. */
  lemma {:induction false} SameHashSamePlace(rows: seq<Row>, i: nat, j: nat, hash: Hash)
    requires FixedWidth(hash) && Verifies(rows, hash, GENESIS_HASH) && !Broken(rows, hash) && i < j < |rows|
    ensures rows[i].hash != rows[j].hash
  {
    if rows[i].hash == rows[j].hash {
      StepBack(rows, i, j, hash);
      if i > 0 {
        SameHashSamePlace(rows, i - 1, j - 1, hash);
      }
    }
  }

  lemma StepBack(rows: seq<Row>, i: nat, j: nat, hash: Hash)
    requires FixedWidth(hash) && Verifies(rows, hash, GENESIS_HASH) && !Broken(rows, hash) && i < j < |rows|
    requires rows[i].hash == rows[j].hash
    ensures i > 0 && rows[i - 1].hash == rows[j - 1].hash
  {
    VerifiedRow(rows, i, hash);
    VerifiedRow(rows, j, hash);
    NoCollision(rows, i, j, hash);
    EqualHashesEqualLinks(rows[i], rows[j], hash);
  }

  lemma NoCollision(rows: seq<Row>, i: nat, j: nat, hash: Hash)
    requires !Broken(rows, hash) && i < |rows| && j < |rows|
    ensures !Collides(hash, rows[i], rows[j])
  {
  }

  lemma EqualHashesEqualLinks(a: Row, b: Row, hash: Hash)
    requires Hashed(a, hash) && Hashed(b, hash) && a.hash == b.hash && !Collides(hash, a, b)
    requires |a.prevHash| == |b.prevHash|
    ensures a.prevHash == b.prevHash
  {
    HashInputInjective(a.prevHash, a.payload, b.prevHash, b.payload);
  }

  lemma VerifiedLast(rows: seq<Row>, hash: Hash)
    requires FixedWidth(hash) && Verifies(rows, hash, GENESIS_HASH) && rows != []
    ensures var front, last := rows[..|rows| - 1], rows[|rows| - 1];
      && Verifies(front, hash, GENESIS_HASH) && Hashed(last, hash)
      && last.prevHash == LastHash(front, GENESIS_HASH) && |last.prevHash| == HASH_WIDTH
  {
    LastHashWidth(rows[..|rows| - 1], hash, GENESIS_HASH);
  }

  lemma {:induction false} VerifiedRow(rows: seq<Row>, i: nat, hash: Hash)
    requires FixedWidth(hash) && Verifies(rows, hash, GENESIS_HASH) && i < |rows|
    ensures Hashed(rows[i], hash) && |rows[i].prevHash| == HASH_WIDTH
    ensures rows[i].prevHash == if i == 0 then GENESIS_HASH else rows[i - 1].hash
  {
    VerifiedLast(rows, hash);
    if i < |rows| - 1 {
      VerifiedRow(rows[..|rows| - 1], i, hash);
    }
  }

  lemma {:induction false} InsertedHashIsFresh(rows: seq<Row>, row: Row)
    requires DistinctHashes(InsertRow(rows, row))
    ensures !HasHash(rows, row.hash)
  {
    var after := InsertRow(rows, row);
    if rows != [] && Before(row, rows[|rows| - 1]) {
      var front, last := rows[..|rows| - 1], rows[|rows| - 1];
      var inserted := InsertRow(front, row);
      assert forall i :: 0 <= i < |inserted| ==> inserted[i] == after[i];
      InsertedHashIsFresh(front, row);
      InsertRowKeeps(front, row);
      assert row in inserted;
      var k :| 0 <= k < |inserted| && inserted[k] == row;
      assert after[k].hash != after[|front| + 1].hash;
      assert rows == front + [last];
    } else {
      assert after[|rows|] == row && forall i :: 0 <= i < |rows| ==> after[i] == rows[i];
    }
  }

  /**
   A write leaves the chain verifiable exactly when it was and the new row is last by ts and id,
   unless the hash function is broken.
   */
  lemma WriteKeepsChain(rows: seq<Row>, row: Row, hash: Hash)
    requires FixedWidth(hash) && LinksInside(rows) && row.prevHash == LastHash(rows, GENESIS_HASH) && Hashed(row, hash)
    ensures Broken(InsertRow(rows, row), hash) ||
      (Verifies(InsertRow(rows, row), hash, GENESIS_HASH)
       <==> Verifies(rows, hash, GENESIS_HASH) && ComesLast(rows, row))
  {
    var after := InsertRow(rows, row);
    if ComesLast(rows, row) {
      VerifiesAppend(rows, row, hash, GENESIS_HASH);
    } else if Verifies(after, hash, GENESIS_HASH) && !Broken(after, hash) {
      VerifiedHashesDiffer(after, hash);
      InsertedHashIsFresh(rows, row);
      InsertRowKeeps(rows, row);
      NotGenesis(after, row);
      FreshWriteKeepsChain(rows, row, hash);
    }
  }

  lemma NotGenesis(rows: seq<Row>, row: Row)
    requires row in rows && !HitsGenesis(rows, GENESIS_HASH)
    ensures row.hash != GENESIS_HASH
  {
  }

  lemma StaysBroken(rows: seq<Row>, row: Row, hash: Hash)
    requires Broken(rows, hash)
    ensures Broken(InsertRow(rows, row), hash)
  {
    InsertRowKeeps(rows, row);
    MoreRowsStayBroken(rows, InsertRow(rows, row), hash);
  }

  lemma MoreRowsStayBroken(rows: seq<Row>, more: seq<Row>, hash: Hash)
    requires Broken(rows, hash) && forall x :: x in rows ==> x in more
    ensures Broken(more, hash)
  {
    if HitsGenesis(rows, GENESIS_HASH) {
      var i :| 0 <= i < |rows| && rows[i].hash == GENESIS_HASH;
      assert rows[i] in more;
    } else {
      var i, j :| 0 <= i < |rows| && 0 <= j < |rows| && Collides(hash, rows[i], rows[j]);
      assert rows[i] in more && rows[j] in more;
      var k :| 0 <= k < |more| && more[k] == rows[i];
      var m :| 0 <= m < |more| && more[m] == rows[j];
      ExhibitsCollision(more, k, m, hash);
    }
  }

  lemma ExhibitsCollision(rows: seq<Row>, k: nat, m: nat, hash: Hash)
    requires k < |rows| && m < |rows| && Collides(hash, rows[k], rows[m])
    ensures Collision(hash, rows, rows)
  {
  }

  /** Each event came last by ts and id when it was committed. */
  ghost predicate CommittedInOrder(events: seq<Event>, hash: Hash)
    requires forall i :: 0 <= i < |events| ==> WellFormedPayload(PayloadOf(events[i]))
  {
    events == [] ||
    var front, last := events[..|events| - 1], events[|events| - 1];
    var rows := WriteAll(front, hash);
    CommittedInOrder(front, hash) && ComesLast(rows, NextRow(rows, last, hash))
  }

  /**
   Over a whole run, the log verifies exactly when every commit was in (ts, id) order, unless the
   table exhibits a collision or a preimage of the genesis hash.
   */
  lemma {:induction false} LogVerifiesExactly(events: seq<Event>, hash: Hash)
    requires forall i :: 0 <= i < |events| ==> WellFormedPayload(PayloadOf(events[i]))
    requires FixedWidth(hash)
    ensures LinksInside(WriteAll(events, hash))
    ensures Broken(WriteAll(events, hash), hash) ||
      (Verifies(WriteAll(events, hash), hash, GENESIS_HASH) <==> CommittedInOrder(events, hash))
  {
    if events != [] {
      var n := |events| - 1;
      var front := events[..n];
      var rows := WriteAll(front, hash);
      var row := NextRow(rows, events[n], hash);
      LogVerifiesExactly(front, hash);
      WriteKeepsChain(rows, row, hash);
      LinksStayInside(rows, row);
      if Broken(rows, hash) { StaysBroken(rows, row, hash); }
    }
  }

  /**
   A second event with an earlier timestamp: the log does not verify, unless its first row hashes to the
   genesis value.
   */
  lemma OutOfOrderBreaks(first: Event, second: Event, hash: Hash)
    requires WellFormedEvent(first) && WellFormedEvent(second) && Less(second.ts, first.ts)
    ensures WellFormedPayload(PayloadOf(first)) && WellFormedPayload(PayloadOf(second))
    ensures Verifies(WriteAll([first, second], hash), hash, GENESIS_HASH) ==>
      HitsGenesis(WriteAll([first], hash), GENESIS_HASH)
  {
    PayloadOfIsWellFormed(first);
    PayloadOfIsWellFormed(second);
    WriteOne(first, hash);
    WriteTwo(first, second, hash);
    MisplacedSecondBreaks(NextRow([], first, hash), NextRow(WriteAll([first], hash), second, hash), hash);
  }

  lemma WriteOne(first: Event, hash: Hash)
    requires WellFormedPayload(PayloadOf(first))
    ensures WriteAll([first], hash) == [NextRow([], first, hash)]
  {
    assert [first][..0] == [];
  }

  lemma WriteTwo(first: Event, second: Event, hash: Hash)
    requires WellFormedPayload(PayloadOf(first)) && WellFormedPayload(PayloadOf(second))
    ensures var rows := WriteAll([first], hash);
      WriteAll([first, second], hash) == InsertRow(rows, NextRow(rows, second, hash))
  {
    assert [first, second][..1] == [first];
  }

  lemma MisplacedSecondBreaks(one: Row, two: Row, hash: Hash)
    requires Before(two, one) && two.prevHash == one.hash
    ensures Verifies(InsertRow([one], two), hash, GENESIS_HASH) ==> HitsGenesis([one], GENESIS_HASH)
  {
    assert [one][..0] == [] && InsertRow([one], two) == [two, one];
    VerifiesAppend([two], one, hash, GENESIS_HASH);
    VerifiesAppend([], two, hash, GENESIS_HASH);
    assert [two] + [one] == [two, one] && [] + [two] == [two];
    if two.prevHash == GENESIS_HASH { assert [one][0].hash == GENESIS_HASH; }
  }

  /** Strictly increasing timestamps are enough, whatever the hash. */
  lemma {:induction false} IncreasingTsBuildsChain(events: seq<Event>, hash: Hash)
    requires forall i :: 0 <= i < |events| ==> WellFormedPayload(PayloadOf(events[i]))
    requires forall i, j :: 0 <= i < j < |events| ==> Less(events[i].ts, events[j].ts)
    ensures Verifies(WriteAll(events, hash), hash, GENESIS_HASH) && Records(WriteAll(events, hash), events)
  {
    if events != [] {
      var n := |events| - 1;
      IncreasingTsBuildsChain(events[..n], hash);
      var rows := WriteAll(events[..n], hash);
      var row := NextRow(rows, events[n], hash);
      LaterComesLast(rows, row, events);
      VerifiesAppend(rows, row, hash, GENESIS_HASH);
      RecordsAppend(rows, row, events);
    }
  }

  /** The table holds every event, in order. */
  ghost predicate Records(rows: seq<Row>, events: seq<Event>)
    requires forall i :: 0 <= i < |events| ==> WellFormedPayload(PayloadOf(events[i]))
  {
    |rows| == |events| && forall i :: 0 <= i < |events| ==> rows[i].payload == PayloadOf(events[i])
  }

  lemma LaterComesLast(rows: seq<Row>, row: Row, events: seq<Event>)
    requires forall i :: 0 <= i < |events| ==> WellFormedPayload(PayloadOf(events[i]))
    requires forall i, j :: 0 <= i < j < |events| ==> Less(events[i].ts, events[j].ts)
    requires events != [] && Records(rows, events[..|events| - 1])
    requires row.payload == PayloadOf(events[|events| - 1])
    ensures ComesLast(rows, row)
  {
    var n := |events| - 1;
    if n > 0 { LessTotal(events[n - 1].ts, events[n].ts); }
  }

  lemma RecordsAppend(rows: seq<Row>, row: Row, events: seq<Event>)
    requires forall i :: 0 <= i < |events| ==> WellFormedPayload(PayloadOf(events[i]))
    requires events != [] && Records(rows, events[..|events| - 1])
    requires row.payload == PayloadOf(events[|events| - 1])
    ensures Records(rows + [row], events)
  {
  }
}
