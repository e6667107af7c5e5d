/**
 The `entities` table in id order, and the queries the backfill makes on it: a batch behind a
 cursor, and the update of one row.
 */
module EntityTable {
  import opened Encryption

  datatype Row = Row(id: string, entityType: string, properties: Properties)

  /**
   The database's order on ids: an id sorts before another when its rank is lower. Every order on
   strings has such ranks, so nothing is said about the collation.
   */
  type Rank = string -> real

  /** The rows in the order of their ids, all behind the empty string the cursor starts from. */
  ghost predicate Table(rank: Rank, rows: seq<Row>) {
    && (forall i :: 0 <= i < |rows| ==> rank("") < rank(rows[i].id))
    && (forall i, j :: 0 <= i < j < |rows| ==> rank(rows[i].id) < rank(rows[j].id))
  }

  /** All rows of the type behind the cursor, in id order. */
  function After(rank: Rank, rows: seq<Row>, entityType: string, cursor: string): seq<Row> {
    if rows == [] then []
    else
      (if rows[0].entityType == entityType && rank(cursor) < rank(rows[0].id) then [rows[0]] else [])
      + After(rank, rows[1..], entityType, cursor)
  }

  /** The `SELECT … ORDER BY id ASC LIMIT` of the loop. */
  function Select(rank: Rank, rows: seq<Row>, entityType: string, cursor: string, limit: nat): seq<Row> {
    var all := After(rank, rows, entityType, cursor);
    if |all| <= limit then all else all[..limit]
  }

  /** The `UPDATE … WHERE id AND type` of the loop. */
  function Update(rows: seq<Row>, id: string, entityType: string, properties: Properties): seq<Row> {
    seq(|rows|, i requires 0 <= i < |rows| =>
      if rows[i].id == id && rows[i].entityType == entityType then rows[i].(properties := properties) else rows[i])
  }

  lemma {:induction false} AfterMembers(rank: Rank, rows: seq<Row>, entityType: string, cursor: string, row: Row)
    ensures row in After(rank, rows, entityType, cursor) <==>
      row in rows && row.entityType == entityType && rank(cursor) < rank(row.id)
  {
    if rows != [] {
      AfterMembers(rank, rows[1..], entityType, cursor, row);
      assert rows == [rows[0]] + rows[1..];
    }
  }

  /** Moving the cursor to the row at position `k` leaves the rows behind that one. */
  lemma {:induction false} CursorMoves(rank: Rank, rows: seq<Row>, entityType: string, cursor: string, k: nat)
    requires Table(rank, rows) && k < |After(rank, rows, entityType, cursor)|
    ensures var all := After(rank, rows, entityType, cursor);
      After(rank, rows, entityType, all[k].id) == all[k + 1..]
    decreases |rows|, 1
  {
    var head, tail := rows[0], rows[1..];
    assert rows == [head] + tail;
    TailIsTable(rank, head, tail);
    AfterCons(rank, head, tail, entityType, cursor);
    if head.entityType == entityType && rank(cursor) < rank(head.id) {
      CursorMovesFromHead(rank, head, tail, entityType, cursor, k);
    } else {
      CursorMovesInTail(rank, head, tail, entityType, cursor, k);
    }
  }

  lemma {:induction false} CursorMovesInTail(
      rank: Rank, head: Row, tail: seq<Row>, entityType: string, cursor: string, k: nat)
    requires Table(rank, tail) && forall i :: 0 <= i < |tail| ==> rank(head.id) < rank(tail[i].id)
    requires k < |After(rank, tail, entityType, cursor)|
    ensures var all := After(rank, tail, entityType, cursor);
      After(rank, [head] + tail, entityType, all[k].id) == all[k + 1..]
    decreases |tail| + 1, 0
  {
    CursorPassesHead(rank, head, tail, entityType, cursor, k);
    CursorMoves(rank, tail, entityType, cursor, k);
  }

  lemma AfterCons(rank: Rank, head: Row, tail: seq<Row>, entityType: string, cursor: string)
    ensures After(rank, [head] + tail, entityType, cursor) ==
      if head.entityType == entityType && rank(cursor) < rank(head.id) then
        [head] + After(rank, tail, entityType, cursor)
      else After(rank, tail, entityType, cursor)
  {
    assert ([head] + tail)[1..] == tail;
  }

  lemma {:induction false} CursorMovesFromHead(
      rank: Rank, head: Row, tail: seq<Row>, entityType: string, cursor: string, k: nat)
    requires Table(rank, tail) && forall i :: 0 <= i < |tail| ==> rank(head.id) < rank(tail[i].id)
    requires k <= |After(rank, tail, entityType, cursor)|
    requires head.entityType == entityType && rank(cursor) < rank(head.id)
    ensures var all := [head] + After(rank, tail, entityType, cursor);
      After(rank, [head] + tail, entityType, all[k].id) == all[k + 1..]
    decreases |tail| + 1, 0
  {
    var rest := After(rank, tail, entityType, cursor);
    TailOfCons(head, rest, k);
    if k == 0 {
      AfterCons(rank, head, tail, entityType, head.id);
      AllBehind(rank, tail, entityType, cursor, head.id);
    } else {
      CursorPassesHead(rank, head, tail, entityType, cursor, k - 1);
      CursorMoves(rank, tail, entityType, cursor, k - 1);
    }
  }

  lemma TailIsTable(rank: Rank, head: Row, tail: seq<Row>)
    requires Table(rank, [head] + tail)
    ensures Table(rank, tail) && forall i :: 0 <= i < |tail| ==> rank(head.id) < rank(tail[i].id)
  {
    var rows := [head] + tail;
    assert rows[0] == head;
    assert forall i :: 0 <= i < |tail| ==> tail[i] == rows[i + 1];
  }

  lemma TailOfCons(head: Row, rest: seq<Row>, k: nat)
    requires k <= |rest|
    ensures ([head] + rest)[k + 1..] == rest[k..]
  {
  }

  /** With the cursor at a later row the head is not behind it. */
  lemma CursorPassesHead(rank: Rank, head: Row, tail: seq<Row>, entityType: string, cursor: string, k: nat)
    requires Table(rank, tail) && forall i :: 0 <= i < |tail| ==> rank(head.id) < rank(tail[i].id)
    requires k < |After(rank, tail, entityType, cursor)|
    ensures var id := After(rank, tail, entityType, cursor)[k].id;
      After(rank, [head] + tail, entityType, id) == After(rank, tail, entityType, id)
  {
    var row := After(rank, tail, entityType, cursor)[k];
    AfterMembers(rank, tail, entityType, cursor, row);
    AfterCons(rank, head, tail, entityType, row.id);
  }

  lemma {:induction false} AllBehind(rank: Rank, rows: seq<Row>, entityType: string, c1: string, c2: string)
    requires forall i :: 0 <= i < |rows| ==> rank(c1) < rank(rows[i].id) && rank(c2) < rank(rows[i].id)
    ensures After(rank, rows, entityType, c1) == After(rank, rows, entityType, c2)
  {
    if rows != [] { AllBehind(rank, rows[1..], entityType, c1, c2); }
  }

  lemma {:induction false} AfterAscends(rank: Rank, rows: seq<Row>, entityType: string, cursor: string, i: nat, j: nat)
    requires Table(rank, rows) && i < j < |After(rank, rows, entityType, cursor)|
    ensures var all := After(rank, rows, entityType, cursor); rank(all[i].id) < rank(all[j].id)
  {
    var all, rest := After(rank, rows, entityType, cursor), After(rank, rows[1..], entityType, cursor);
    if all == rest {
      AfterAscends(rank, rows[1..], entityType, cursor, i, j);
    } else {
      assert all == [rows[0]] + rest;
      AfterMembers(rank, rows[1..], entityType, cursor, rest[j - 1]);
      if i > 0 { AfterAscends(rank, rows[1..], entityType, cursor, i - 1, j - 1); }
    }
  }
}
