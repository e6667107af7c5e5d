/** JavaScript strings as sequences of UTF-16 code units, their default order, and sorting by it. */
module Lex {
  type CodeUnit = n: int | 0 <= n < 0x1_0000

  type Utf16 = seq<CodeUnit>

  predicate Less(a: Utf16, b: Utf16) {
    b != [] && (a == [] || a[0] < b[0] || (a[0] == b[0] && Less(a[1..], b[1..])))
  }

  /** The first difference decides; a proper prefix comes first. */
  ghost predicate DiffersAt(a: Utf16, b: Utf16, p: nat) {
    p <= |a| && p < |b| && a[..p] == b[..p] && (p < |a| ==> a[p] < b[p])
  }

  lemma {:induction false} LessExactly(a: Utf16, b: Utf16)
    ensures Less(a, b) <==> exists p: nat :: DiffersAt(a, b, p)
  {
    if b != [] {
      if a == [] || a[0] < b[0] {
        assert DiffersAt(a, b, 0);
      } else {
        LessExactly(a[1..], b[1..]);
        if a[0] == b[0] && Less(a[1..], b[1..]) {
          var p: nat :| DiffersAt(a[1..], b[1..], p);
          LaterDifference(a, b, p);
        }
        if p: nat :| DiffersAt(a, b, p) {
          EarlierDifference(a, b, p);
        }
      }
    }
  }

  lemma LaterDifference(a: Utf16, b: Utf16, p: nat)
    requires a != [] && b != [] && a[0] == b[0] && DiffersAt(a[1..], b[1..], p)
    ensures DiffersAt(a, b, p + 1)
  {
    assert a[..p + 1] == [a[0]] + a[1..][..p] && b[..p + 1] == [b[0]] + b[1..][..p];
  }

  lemma EarlierDifference(a: Utf16, b: Utf16, p: nat)
    requires a != [] && b != [] && a[0] >= b[0] && DiffersAt(a, b, p)
    ensures p > 0 && a[0] == b[0] && DiffersAt(a[1..], b[1..], p - 1)
  {
    assert p > 0 ==> a[0] == a[..p][0] && b[0] == b[..p][0];
    assert p > 0 ==> a[1..][..p - 1] == a[..p][1..] && b[1..][..p - 1] == b[..p][1..];
  }

  lemma {:induction false} LessTransitive(a: Utf16, b: Utf16, c: Utf16)
    requires Less(a, b) && Less(b, c)
    ensures Less(a, c)
  {
    if a != [] && a[0] == b[0] == c[0] {
      LessTransitive(a[1..], b[1..], c[1..]);
    }
  }

  lemma {:induction false} LessTotal(a: Utf16, b: Utf16)
    ensures a == b || Less(a, b) || Less(b, a)
    ensures !(Less(a, b) && Less(b, a)) && !Less(a, a)
    decreases |a| + |b|
  {
    if a != [] && b != [] {
      LessTotal(a[1..], b[1..]);
      if a[0] == b[0] && a[1..] == b[1..] {
        assert a == [a[0]] + a[1..];
        assert b == [b[0]] + b[1..];
      }
    }
    LessIrreflexive(a);
  }

  lemma {:induction false} LessIrreflexive(a: Utf16)
    ensures !Less(a, a)
  {
    if a != [] { LessIrreflexive(a[1..]); }
  }

  ghost predicate Sorted(keys: seq<Utf16>) {
    forall i, j :: 0 <= i < j < |keys| ==> Less(keys[i], keys[j])
  }

  predicate Distinct(keys: seq<Utf16>) {
    forall i, j :: 0 <= i < j < |keys| ==> keys[i] != keys[j]
  }

  function InsertKey(k: Utf16, sorted: seq<Utf16>): (r: seq<Utf16>)
    ensures multiset(r) == multiset(sorted) + multiset{k}
  {
    if sorted == [] || Less(k, sorted[0]) then [k] + sorted
    else
      assert sorted == [sorted[0]] + sorted[1..];
      [sorted[0]] + InsertKey(k, sorted[1..])
  }

  /** `Array.prototype.sort` with the default comparison, on keys. */
  function SortKeys(keys: seq<Utf16>): (r: seq<Utf16>)
    ensures multiset(r) == multiset(keys)
  {
    if keys == [] then []
    else
      assert keys == [keys[0]] + keys[1..];
      InsertKey(keys[0], SortKeys(keys[1..]))
  }

  lemma {:induction false} InsertKeySorts(k: Utf16, sorted: seq<Utf16>)
    requires Sorted(sorted) && k !in sorted
    ensures Sorted(InsertKey(k, sorted))
  {
    if sorted == [] {
    } else if Less(k, sorted[0]) {
      forall j | 0 < j < |sorted| ensures Less(k, sorted[j]) { LessTransitive(k, sorted[0], sorted[j]); }
    } else {
      InsertKeySorts(k, sorted[1..]);
      LessTotal(k, sorted[0]);
      var rest := InsertKey(k, sorted[1..]);
      forall j | 0 <= j < |rest| ensures Less(sorted[0], rest[j]) {
        assert rest[j] in multiset(rest);
        assert rest[j] == k || rest[j] in sorted[1..];
      }
    }
  }

  lemma {:induction false} SortKeysSorts(keys: seq<Utf16>)
    requires Distinct(keys)
    ensures Sorted(SortKeys(keys))
    ensures forall k :: k in SortKeys(keys) <==> k in keys
  {
    SortKeysKeeps(keys);
    if keys != [] {
      SortKeysSorts(keys[1..]);
      assert keys[0] !in keys[1..];
      InsertKeySorts(keys[0], SortKeys(keys[1..]));
    }
  }

  lemma SortKeysKeeps(keys: seq<Utf16>)
    ensures forall k :: k in SortKeys(keys) <==> k in keys
    ensures |SortKeys(keys)| == |keys|
  {
    forall k ensures k in SortKeys(keys) <==> k in keys {
      assert k in multiset(SortKeys(keys)) <==> k in multiset(keys);
    }
    assert |multiset(SortKeys(keys))| == |multiset(keys)|;
  }

  /** A set of keys has one sorted order. */
  lemma {:induction false} SortedIsUnique(a: seq<Utf16>, b: seq<Utf16>)
    requires Sorted(a) && Sorted(b)
    requires forall k :: k in a <==> k in b
    ensures a == b
  {
    assert b == [] || b[0] in b;
    if a != [] {
      assert a[0] in b && (b != [] ==> b[0] in a);
      SameLeast(a, b);
      forall k ensures k in a[1..] <==> k in b[1..] {
        TailMembers(a, k);
        TailMembers(b, k);
      }
      SortedIsUnique(a[1..], b[1..]);
      assert a == [a[0]] + a[1..] && b == [b[0]] + b[1..];
    }
  }

  lemma SameLeast(a: seq<Utf16>, b: seq<Utf16>)
    requires Sorted(a) && Sorted(b) && a != [] && b != [] && a[0] in b && b[0] in a
    ensures a[0] == b[0]
  {
    LessTotal(a[0], b[0]);
  }

  lemma TailMembers(a: seq<Utf16>, k: Utf16)
    requires Sorted(a) && a != []
    ensures k in a[1..] <==> k in a && k != a[0]
  {
    LessTotal(a[0], a[0]);
  }
}
