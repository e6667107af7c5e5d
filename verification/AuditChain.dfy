/**
 The chain of hashes over the audit rows, and what a chain that verifies proves about its rows.

 The hash is a parameter. Nothing is assumed of it beyond its 64-digit width: where a
 cryptographic hash is needed, the conclusion names the collision that would break it.
 */
module AuditChain {
  import opened Wrappers
  import opened Lex
  import opened CanonicalJson
  import opened AuditHash

  /** A stored row. Columns that are not hashed, other than the id, are left out. */
  datatype Row = Row(id: Utf16, payload: Payload, prevHash: Utf16, hash: Utf16)

  type Hash = Utf16 -> Utf16

  const HASH_WIDTH: nat := 64

  /** Sixty-four zero digits: where the writer starts its chain. */
  const GENESIS_HASH: Utf16 := Zeros(HASH_WIDTH)

  function Zeros(n: nat): (zeros: Utf16)
    ensures |zeros| == n && forall i :: 0 <= i < n ==> zeros[i] == 48
  {
    if n == 0 then [] else [48] + Zeros(n - 1)
  }

  // ---------------------------------------------------------------------------
  // Chains
  // ---------------------------------------------------------------------------

  ghost predicate WellFormedRows(rows: seq<Row>) {
    forall i :: 0 <= i < |rows| ==> WellFormedPayload(rows[i].payload)
  }

  function LastHash(rows: seq<Row>, genesis: Utf16): Utf16 {
    if rows == [] then genesis else rows[|rows| - 1].hash
  }

  /** The row carries the hash of its own content and of the hash before it. */
  ghost predicate Hashed(row: Row, hash: Hash) {
    WellFormedPayload(row.payload) && row.hash == hash(HashInput(row.prevHash, row.payload))
  }

  /** The rows form one chain from the genesis hash. */
  ghost predicate Verifies(rows: seq<Row>, hash: Hash, genesis: Utf16) {
    rows == [] ||
    var front, last := rows[..|rows| - 1], rows[|rows| - 1];
    Verifies(front, hash, genesis) && Hashed(last, hash) && last.prevHash == LastHash(front, genesis)
  }

  ghost predicate Agree(r: seq<Row>, s: seq<Row>) {
    |r| == |s| && forall i :: 0 <= i < |r| ==> SamePayload(r[i].payload, s[i].payload)
  }

  /** Two different hashed texts with the same hash. */
  ghost predicate Collides(hash: Hash, a: Row, b: Row) {
    && WellFormedPayload(a.payload) && WellFormedPayload(b.payload)
    && HashInput(a.prevHash, a.payload) != HashInput(b.prevHash, b.payload)
    && hash(HashInput(a.prevHash, a.payload)) == hash(HashInput(b.prevHash, b.payload))
  }

  ghost predicate Collision(hash: Hash, r: seq<Row>, s: seq<Row>) {
    exists i, j :: 0 <= i < |r| && 0 <= j < |s| && Collides(hash, r[i], s[j])
  }

  /** Some row hashes to the genesis value. */
  ghost predicate HitsGenesis(rows: seq<Row>, genesis: Utf16) {
    exists i :: 0 <= i < |rows| && rows[i].hash == genesis
  }

  ghost predicate FixedWidth(hash: Hash) {
    forall x :: |hash(x)| == HASH_WIDTH
  }

  lemma LastHashWidth(rows: seq<Row>, hash: Hash, genesis: Utf16)
    requires FixedWidth(hash) && |genesis| == HASH_WIDTH && Verifies(rows, hash, genesis)
    ensures |LastHash(rows, genesis)| == HASH_WIDTH
  {
  }

  /**
   Two verifying chains with the same last hash agree on all seven fields of every row, and
   so in length, unless they exhibit a collision or a preimage of the genesis hash.
   */
  lemma {:induction false} ChainIsTamperEvident(r: seq<Row>, s: seq<Row>, hash: Hash, genesis: Utf16)
    requires FixedWidth(hash) && |genesis| == HASH_WIDTH && Verifies(r, hash, genesis) && Verifies(s, hash, genesis)
    requires LastHash(r, genesis) == LastHash(s, genesis)
    ensures Agree(r, s) || Collision(hash, r, s) || HitsGenesis(r, genesis) || HitsGenesis(s, genesis)
    decreases |r|
  {
    if r != [] && s != [] {
      var m, n := |r| - 1, |s| - 1;
      var a, b := r[m], s[n];
      LastHashWidth(r[..m], hash, genesis);
      LastHashWidth(s[..n], hash, genesis);
      HashInputInjective(a.prevHash, a.payload, b.prevHash, b.payload);
      if HashInput(a.prevHash, a.payload) != HashInput(b.prevHash, b.payload) {
        assert Collides(hash, r[m], s[n]);
      } else {
        ChainIsTamperEvident(r[..m], s[..n], hash, genesis);
        Extend(hash, r, s, genesis);
      }
    } else if r != [] {
      assert r[|r| - 1].hash == genesis;
    } else if s != [] {
      assert s[|s| - 1].hash == genesis;
    }
  }

  lemma Extend(hash: Hash, r: seq<Row>, s: seq<Row>, genesis: Utf16)
    requires r != [] && s != []
    requires SamePayload(r[|r| - 1].payload, s[|s| - 1].payload)
    requires var r', s' := r[..|r| - 1], s[..|s| - 1];
      Agree(r', s') || Collision(hash, r', s') || HitsGenesis(r', genesis) || HitsGenesis(s', genesis)
    ensures Agree(r, s) || Collision(hash, r, s) || HitsGenesis(r, genesis) || HitsGenesis(s, genesis)
  {
    var r', s' := r[..|r| - 1], s[..|s| - 1];
    if HitsGenesis(r', genesis) {
      HitsGenesisGrows(r, genesis);
    } else if HitsGenesis(s', genesis) {
      HitsGenesisGrows(s, genesis);
    } else if Collision(hash, r', s') {
      var i, j :| 0 <= i < |r'| && 0 <= j < |s'| && Collides(hash, r'[i], s'[j]);
      assert Collides(hash, r[i], s[j]);
    } else {
      AgreeGrows(r, s);
    }
  }

  lemma HitsGenesisGrows(r: seq<Row>, genesis: Utf16)
    requires r != [] && HitsGenesis(r[..|r| - 1], genesis)
    ensures HitsGenesis(r, genesis)
  {
    var i :| 0 <= i < |r| - 1 && r[..|r| - 1][i].hash == genesis;
    assert r[i].hash == genesis;
  }

  lemma AgreeGrows(r: seq<Row>, s: seq<Row>)
    requires r != [] && s != [] && Agree(r[..|r| - 1], s[..|s| - 1])
    requires SamePayload(r[|r| - 1].payload, s[|s| - 1].payload)
    ensures Agree(r, s)
  {
    forall i | 0 <= i < |r| ensures SamePayload(r[i].payload, s[i].payload) {
      if i < |r| - 1 {
        assert r[..|r| - 1][i] == r[i] && s[..|s| - 1][i] == s[i];
      }
    }
  }

  /** Storing objects with their keys in another order does not disturb a chain. */
  lemma {:induction false} ChainSurvivesKeyOrder(r: seq<Row>, s: seq<Row>, hash: Hash, genesis: Utf16)
    requires WellFormedRows(r) && WellFormedRows(s) && Agree(r, s)
    requires forall i :: 0 <= i < |r| ==> r[i].prevHash == s[i].prevHash && r[i].hash == s[i].hash
    ensures Verifies(r, hash, genesis) <==> Verifies(s, hash, genesis)
  {
    if r != [] {
      var n := |r| - 1;
      ChainSurvivesKeyOrder(r[..n], s[..n], hash, genesis);
      HashInputInjective(r[n].prevHash, r[n].payload, s[n].prevHash, s[n].payload);
    }
  }

  // ---------------------------------------------------------------------------
  // Checking a chain
  // ---------------------------------------------------------------------------

  /**
   The loop of the verification endpoint over the rows in (ts, id) order, with the genesis hash it
   is configured with. It names the first row at which the chain breaks.
   */
  method VerifyRows(rows: seq<Row>, hash: Hash, genesis: Utf16) returns (firstInvalidId: Option<Utf16>)
    requires WellFormedRows(rows)
    ensures firstInvalidId.None? <==> Verifies(rows, hash, genesis)
    ensures firstInvalidId.Some? ==> exists i :: BreaksAt(rows, i, hash, genesis) && firstInvalidId.value == rows[i].id
  {
    var expectedPrevHash := genesis;
    for i := 0 to |rows|
      invariant expectedPrevHash == LastHash(rows[..i], genesis)
      invariant Verifies(rows[..i], hash, genesis)
    {
      var row := rows[i];
      VerifyStep(rows, i, hash, genesis);
      if row.prevHash != expectedPrevHash || hash(HashInput(row.prevHash, row.payload)) != row.hash {
        assert BreaksAt(rows, i, hash, genesis);
        BrokenStaysBroken(rows, i + 1, hash, genesis);
        return Some(row.id);
      }
      expectedPrevHash := row.hash;
    }
    assert rows[..|rows|] == rows;
    return None;
  }

  /** The rows before row `i` form a chain, and with row `i` they do not. */
  ghost predicate BreaksAt(rows: seq<Row>, i: int, hash: Hash, genesis: Utf16) {
    0 <= i < |rows| && Verifies(rows[..i], hash, genesis) && !Verifies(rows[..i + 1], hash, genesis)
  }

  /** A non-empty chain verifies from one genesis value only. */
  lemma {:induction false} OtherGenesisRejects(rows: seq<Row>, hash: Hash, genesis: Utf16, other: Utf16)
    requires rows != [] && Verifies(rows, hash, genesis) && other != genesis
    ensures !Verifies(rows, hash, other)
  {
    var front := rows[..|rows| - 1];
    if front != [] { OtherGenesisRejects(front, hash, genesis, other); }
  }

  lemma VerifyStep(rows: seq<Row>, i: nat, hash: Hash, genesis: Utf16)
    requires i < |rows| && WellFormedPayload(rows[i].payload)
    ensures LastHash(rows[..i + 1], genesis) == rows[i].hash
    ensures Verifies(rows[..i + 1], hash, genesis)
      <==> Verifies(rows[..i], hash, genesis)
           && rows[i].prevHash == LastHash(rows[..i], genesis) && Hashed(rows[i], hash)
  {
    var front, row := rows[..i], rows[i];
    PrefixStep(rows, i);
    VerifiesAppend(front, row, hash, genesis);
  }

  lemma PrefixStep(rows: seq<Row>, i: nat)
    requires i < |rows|
    ensures rows[..i + 1] == rows[..i] + [rows[i]]
  {
  }

  lemma VerifiesAppend(rows: seq<Row>, row: Row, hash: Hash, genesis: Utf16)
    ensures Verifies(rows + [row], hash, genesis)
      <==> Verifies(rows, hash, genesis) && Hashed(row, hash) && row.prevHash == LastHash(rows, genesis)
  {
    assert (rows + [row])[..|rows|] == rows;
  }

  lemma {:induction false} BrokenStaysBroken(rows: seq<Row>, n: nat, hash: Hash, genesis: Utf16)
    requires n <= |rows| && !Verifies(rows[..n], hash, genesis)
    ensures !Verifies(rows, hash, genesis)
    decreases |rows|
  {
    if n == |rows| {
      assert rows[..n] == rows;
    } else {
      assert rows[..|rows| - 1][..n] == rows[..n];
      BrokenStaysBroken(rows[..|rows| - 1], n, hash, genesis);
    }
  }
}
