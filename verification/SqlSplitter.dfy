/**
 The splitter that cuts a SQL script at top-level semicolons and leaves `$$` blocks whole.
 */
module SqlSplitter {
  import opened Text

  predicate AtDollars(s: string) {
    |s| >= 2 && s[0] == '$' && s[1] == '$'
  }

  // ---------------------------------------------------------------------------
  // What a piece of script is, independently of the splitter
  // ---------------------------------------------------------------------------

  /** Whether the reader is inside a `$$` block after `s`, if it was (`open`) before it. */
  function QuoteAfter(s: string, open: bool): bool {
    if s == [] then open
    else if AtDollars(s) then QuoteAfter(s[2..], !open)
    else QuoteAfter(s[1..], open)
  }

  /** No semicolon of `s` stands outside a `$$` block. */
  predicate NoCut(s: string, open: bool) {
    if s == [] then true
    else if AtDollars(s) then NoCut(s[2..], !open)
    else (open || s[0] != ';') && NoCut(s[1..], open)
  }

  /** Every piece is free of cuts, and only the last one may leave a block open. */
  predicate Closed(pieces: seq<string>) {
    && (forall i :: 0 <= i < |pieces| ==> NoCut(pieces[i], false))
    && (forall i :: 0 <= i < |pieces| - 1 ==> !QuoteAfter(pieces[i], false))
  }

  function JoinSemicolon(pieces: seq<string>): string {
    if pieces == [] then []
    else if |pieces| == 1 then pieces[0]
    else pieces[0] + ";" + JoinSemicolon(pieces[1..])
  }

  /** The lists the splitter is meant to return. */
  predicate Canonical(statements: seq<string>) {
    && Closed(statements)
    && forall i :: 0 <= i < |statements| ==> statements[i] != [] && Trimmed(statements[i])
  }

  // ---------------------------------------------------------------------------
  // The splitter
  // ---------------------------------------------------------------------------

  /** The statements still to come, with `current` read since the last cut. */
  function Remaining(rest: string, current: string, inDollarQuote: bool): seq<string>
    decreases |rest|
  {
    if rest == [] then TrimAll([current])
    else if AtDollars(rest) then Remaining(rest[2..], current + "$$", !inDollarQuote)
    else if !inDollarQuote && rest[0] == ';' then TrimAll([current]) + Remaining(rest[1..], [], false)
    else Remaining(rest[1..], current + [rest[0]], inDollarQuote)
  }

  function Statements(sql: string): seq<string> {
    Remaining(sql, [], false)
  }

  method SplitSqlStatements(sql: string) returns (statements: seq<string>)
    ensures statements == Statements(sql)
  {
    statements := [];
    var current := "";
    var inDollarQuote := false;
    var i := 0;
    while i < |sql|
      invariant 0 <= i <= |sql|
      invariant statements + Remaining(sql[i..], current, inDollarQuote) == Statements(sql)
    {
      RemainingStep(sql, i, current, inDollarQuote);
      if sql[i] == '$' && i + 1 < |sql| && sql[i + 1] == '$' {
        inDollarQuote := !inDollarQuote;
        current := current + "$$";
        i := i + 2;
        continue;
      }
      if !inDollarQuote && sql[i] == ';' {
        var trimmed := Trim(current);
        if |trimmed| > 0 {
          statements := statements + [trimmed];
        }
        current := "";
        i := i + 1;
        continue;
      }
      current := current + [sql[i]];
      i := i + 1;
    }
    var trailing := Trim(current);
    TrimAllOne(current);
    if |trailing| > 0 {
      statements := statements + [trailing];
    }
  }

  /** One turn of the loop. */
  lemma RemainingStep(sql: string, i: nat, current: string, open: bool)
    requires i < |sql|
    ensures Remaining(sql[i..], current, open) ==
      if sql[i] == '$' && i + 1 < |sql| && sql[i + 1] == '$' then Remaining(sql[i + 2..], current + "$$", !open)
      else if !open && sql[i] == ';' then
        (if Trim(current) == [] then [] else [Trim(current)]) + Remaining(sql[i + 1..], [], false)
      else Remaining(sql[i + 1..], current + [sql[i]], open)
  {
    var rest := sql[i..];
    assert rest[0] == sql[i] && (i + 1 < |sql| ==> rest[1] == sql[i + 1]);
    assert rest[1..] == sql[i + 1..] && (i + 1 < |sql| ==> rest[2..] == sql[i + 2..]);
    TrimAllOne(current);
  }

  // ---------------------------------------------------------------------------
  // Scanning a piece
  // ---------------------------------------------------------------------------

  /** What follows a piece cannot complete a `$$` started by it. */
  predicate Separates(tail: string) {
    tail == [] || tail[0] != '$'
  }

  lemma {:induction false} ScanAppend(s: string, tail: string, open: bool)
    requires Separates(tail)
    ensures QuoteAfter(s + tail, open) == QuoteAfter(tail, QuoteAfter(s, open))
    ensures NoCut(s + tail, open) <==> NoCut(s, open) && NoCut(tail, QuoteAfter(s, open))
    decreases |s|
  {
    if s == [] {
      assert s + tail == tail;
    } else if AtDollars(s) {
      assert (s + tail)[2..] == s[2..] + tail;
      ScanAppend(s[2..], tail, !open);
    } else {
      assert (s + tail)[1..] == s[1..] + tail;
      ScanAppend(s[1..], tail, open);
    }
  }

  function Dollars(k: nat): (s: string)
    ensures |s| == k && forall i :: 0 <= i < k ==> s[i] == '$'
  {
    seq(k, i => '$')
  }

  /** A run of `k` dollar signs opens and closes a block `k / 2` times in turn, and is no cut. */
  lemma {:induction false} DollarRun(k: nat, tail: string, open: bool)
    requires Separates(tail)
    ensures var after := if k / 2 % 2 == 1 then !open else open;
      && QuoteAfter(Dollars(k) + tail, open) == QuoteAfter(tail, after)
      && NoCut(Dollars(k) + tail, open) == NoCut(tail, after)
    decreases k
  {
    var s := Dollars(k) + tail;
    if k >= 2 {
      assert s[2..] == Dollars(k - 2) + tail;
      DollarRun(k - 2, tail, !open);
    } else if k == 1 {
      assert s[1..] == tail;
    } else {
      assert s == tail;
    }
  }

  /** Any other character changes no block, and is a cut if it is a semicolon outside of one. */
  lemma OtherCharacter(c: char, tail: string, open: bool)
    requires c != '$'
    ensures QuoteAfter([c] + tail, open) == QuoteAfter(tail, open)
    ensures NoCut([c] + tail, open) <==> (open || c != ';') && NoCut(tail, open)
  {
    assert ([c] + tail)[1..] == tail;
  }

  lemma {:induction false} ScanSpaces(s: string, open: bool)
    requires AllSpace(s)
    ensures QuoteAfter(s, open) == open && NoCut(s, open)
  {
    if s != [] { ScanSpaces(s[1..], open); }
  }

  /** Trimming does not move a piece's semicolons in or out of a block. */
  lemma ScanTrim(s: string)
    ensures QuoteAfter(Trim(s), false) == QuoteAfter(s, false)
    ensures NoCut(Trim(s), false) <==> NoCut(s, false)
  {
    var pre, post := TrimDecomposes(s);
    ScanAppend(pre + Trim(s), post, false);
    ScanSpaces(post, QuoteAfter(pre + Trim(s), false));
    ScanSpaces(pre, false);
    ScanLeadingSpaces(pre, Trim(s));
  }

  lemma {:induction false} ScanLeadingSpaces(pre: string, s: string)
    requires AllSpace(pre)
    ensures QuoteAfter(pre + s, false) == QuoteAfter(s, false)
    ensures NoCut(pre + s, false) <==> NoCut(s, false)
  {
    if pre == [] {
      assert pre + s == s;
    } else {
      assert (pre + s)[1..] == pre[1..] + s;
      ScanLeadingSpaces(pre[1..], s);
    }
  }

  lemma {:induction false} RemainingPiece(s: string, tail: string, current: string, open: bool)
    requires Separates(tail) && NoCut(s, open)
    ensures Remaining(s + tail, current, open) == Remaining(tail, current + s, QuoteAfter(s, open))
    decreases |s|
  {
    if s == [] {
      assert s + tail == tail && current + s == current;
    } else {
      var k := if AtDollars(s) then 2 else 1;
      TakeStep(s, tail, current, k);
      RemainingPiece(s[k..], tail, current + s[..k], if k == 2 then !open else open);
      assert AtDollars(s + tail) == AtDollars(s);
    }
  }

  lemma TakeStep(s: string, tail: string, current: string, k: nat)
    requires k <= |s|
    ensures (s + tail)[k..] == s[k..] + tail
    ensures current + s[..k] + s[k..] == current + s
    ensures k == 1 ==> s[..k] == [s[0]]
    ensures k == 2 && AtDollars(s) ==> s[..k] == "$$"
  {
  }

  // ---------------------------------------------------------------------------
  // The splitter is exactly: cut, trim, drop blanks
  // ---------------------------------------------------------------------------

  /** Splitting a `;`-join of closed pieces returns those pieces, trimmed, blanks dropped. */
  lemma {:induction false} SplitOfJoin(pieces: seq<string>)
    requires Closed(pieces)
    ensures Statements(JoinSemicolon(pieces)) == TrimAll(pieces)
  {
    if pieces == [] {
      TrimAllOne([]);
    } else if |pieces| == 1 {
      RemainingPiece(pieces[0], [], [], false);
      assert pieces[0] + [] == pieces[0] && [] + pieces[0] == pieces[0];
      assert pieces == [pieces[0]];
    } else {
      var p, rest := pieces[0], JoinSemicolon(pieces[1..]);
      SplitOfJoin(pieces[1..]);
      PieceThenCut(p, rest);
      assert JoinSemicolon(pieces) == p + (";" + rest);
      TrimAllOne(p);
    }
  }

  lemma PieceThenCut(p: string, rest: string)
    requires NoCut(p, false) && !QuoteAfter(p, false)
    ensures Statements(p + (";" + rest)) == TrimAll([p]) + Statements(rest)
  {
    RemainingPiece(p, ";" + rest, [], false);
    assert (";" + rest)[1..] == rest && [] + p == p;
  }

  /** `pieces` continues a piece that was entered in quote state `open`. */
  predicate ClosedFrom(pieces: seq<string>, open: bool) {
    && pieces != []
    && NoCut(pieces[0], open)
    && (|pieces| > 1 ==> !QuoteAfter(pieces[0], open))
    && Closed(pieces[1..])
  }

  lemma {:induction false} CutScript(s: string, open: bool) returns (pieces: seq<string>)
    ensures ClosedFrom(pieces, open) && JoinSemicolon(pieces) == s
    decreases |s|
  {
    if s == [] {
      pieces := [[]];
    } else if AtDollars(s) {
      var rest := CutScript(s[2..], !open);
      pieces := Extend("$$", rest);
      assert pieces[0][2..] == rest[0];
      assert s == "$$" + s[2..];
    } else if !open && s[0] == ';' {
      var rest := CutScript(s[1..], false);
      pieces := [[]] + rest;
      assert pieces[1..] == rest;
      assert [] + ";" + s[1..] == s;
    } else {
      var rest := CutScript(s[1..], open);
      JoinStartsWithFirst(rest);
      pieces := Extend([s[0]], rest);
      assert pieces[0][1..] == rest[0];
      assert !AtDollars(pieces[0]) by {
        if |rest[0]| > 0 { assert rest[0][0] == s[1]; }
      }
      assert s == [s[0]] + s[1..];
    }
  }

  /** Puts text in front of the first piece. */
  lemma Extend(text: string, rest: seq<string>) returns (pieces: seq<string>)
    requires rest != []
    ensures pieces == [text + rest[0]] + rest[1..]
    ensures pieces[1..] == rest[1..]
    ensures JoinSemicolon(pieces) == text + JoinSemicolon(rest)
  {
    pieces := [text + rest[0]] + rest[1..];
    if |rest| > 1 {
      assert text + rest[0] + ";" + JoinSemicolon(rest[1..]) == text + (rest[0] + ";" + JoinSemicolon(rest[1..]));
    }
  }

  lemma JoinStartsWithFirst(pieces: seq<string>)
    requires pieces != []
    ensures |pieces[0]| <= |JoinSemicolon(pieces)|
    ensures JoinSemicolon(pieces)[..|pieces[0]|] == pieces[0]
  {
  }

  /** Every script is the join of closed pieces, so `SplitOfJoin` says what is returned for it. */
  lemma EveryScriptIsAJoin(sql: string) returns (pieces: seq<string>)
    ensures Closed(pieces) && JoinSemicolon(pieces) == sql
    ensures Statements(sql) == TrimAll(pieces)
  {
    pieces := CutScript(sql, false);
    assert Closed(pieces) by {
      forall i | 0 <= i < |pieces|
        ensures NoCut(pieces[i], false) && (i < |pieces| - 1 ==> !QuoteAfter(pieces[i], false))
      {
        if i > 0 { assert pieces[i] == pieces[1..][i - 1]; }
      }
    }
    SplitOfJoin(pieces);
  }

  // ---------------------------------------------------------------------------
  // Splitting and joining undo each other, exactly on canonical lists
  // ---------------------------------------------------------------------------

  lemma {:induction false} TrimAllIsCanonical(pieces: seq<string>)
    requires Closed(pieces)
    ensures Canonical(TrimAll(pieces))
  {
    if pieces != [] {
      var rest := pieces[1..];
      assert Closed(rest);
      TrimAllIsCanonical(rest);
      var pre, post := TrimDecomposes(pieces[0]);
      ScanTrim(pieces[0]);
      if TrimAll(rest) == [] {
        TrimAllOne(pieces[0]);
      } else {
        assert |pieces| > 1;
        var t, cleaned := Trim(pieces[0]), TrimAll(rest);
        if t == [] { assert TrimAll(pieces) == cleaned; } else { CanonicalCons(t, cleaned); }
      }
    }
  }

  lemma CanonicalCons(t: string, rest: seq<string>)
    requires t != [] && Trimmed(t) && NoCut(t, false) && !QuoteAfter(t, false)
    requires Canonical(rest)
    ensures Canonical([t] + rest)
  {
    var all := [t] + rest;
    forall i | 0 <= i < |all|
      ensures NoCut(all[i], false) && all[i] != [] && Trimmed(all[i])
      ensures i < |all| - 1 ==> !QuoteAfter(all[i], false)
    {
      if i > 0 { assert all[i] == rest[i - 1]; }
    }
  }

  lemma {:induction false} TrimAllOfCanonical(statements: seq<string>)
    requires forall i :: 0 <= i < |statements| ==> statements[i] != [] && Trimmed(statements[i])
    ensures TrimAll(statements) == statements
  {
    if statements != [] {
      TrimmedIsFixed(statements[0]);
      TrimAllOfCanonical(statements[1..]);
    }
  }

  /**
   Splitting undoes joining for exactly the canonical lists: trimmed, non-empty statements
   without a top-level semicolon, all but the last with balanced `$$`.
   */
  lemma SplitUndoesJoin(statements: seq<string>)
    ensures Statements(JoinSemicolon(statements)) == statements <==> Canonical(statements)
  {
    if Canonical(statements) {
      SplitOfJoin(statements);
      TrimAllOfCanonical(statements);
    }
    var pieces := EveryScriptIsAJoin(JoinSemicolon(statements));
    TrimAllIsCanonical(pieces);
  }

  /** Splitting, joining and splitting again changes nothing, for every script. */
  lemma SplitIsStable(sql: string)
    ensures Canonical(Statements(sql))
    ensures Statements(JoinSemicolon(Statements(sql))) == Statements(sql)
  {
    var pieces := EveryScriptIsAJoin(sql);
    TrimAllIsCanonical(pieces);
    SplitUndoesJoin(Statements(sql));
  }
}
