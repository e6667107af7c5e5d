/**
 Whitespace, trimming, regular-expression splitting and word extraction on strings,
 as JavaScript's `trim`, `split` and `join` define them.
 */
module Text {

  /** The characters removed by `String.prototype.trim` and matched by `\s`. */
  predicate IsSpace(c: char) {
    var n := c as int;
    || 0x09 <= n <= 0x0D || n == 0x20 || n == 0xA0 || n == 0x1680
    || 0x2000 <= n <= 0x200A || n == 0x2028 || n == 0x2029
    || n == 0x202F || n == 0x205F || n == 0x3000 || n == 0xFEFF
  }

  ghost predicate AllSpace(s: string) {
    forall i :: 0 <= i < |s| ==> IsSpace(s[i])
  }

  ghost predicate NoSpace(s: string) {
    forall i :: 0 <= i < |s| ==> !IsSpace(s[i])
  }

  predicate NoColon(s: string) {
    forall i :: 0 <= i < |s| ==> s[i] != ':'
  }

  /** `indexOf(':')`, with the length standing for -1. */
  function ColonIndex(s: string): (k: nat)
    ensures k <= |s| && NoColon(s[..k])
    ensures k < |s| ==> s[k] == ':'
  {
    if s == [] || s[0] == ':' then 0 else 1 + ColonIndex(s[1..])
  }

  /** Neither end of `s` is whitespace. */
  predicate Trimmed(s: string) {
    s == [] || (!IsSpace(s[0]) && !IsSpace(s[|s| - 1]))
  }

  function TrimStart(s: string): (r: string)
    ensures |r| <= |s|
  {
    if s != [] && IsSpace(s[0]) then TrimStart(s[1..]) else s
  }

  function TrimEnd(s: string): string {
    if s != [] && IsSpace(s[|s| - 1]) then TrimEnd(s[..|s| - 1]) else s
  }

  function Trim(s: string): string {
    TrimEnd(TrimStart(s))
  }

  /** `s` is its trimmed form with whitespace put back on both sides, and nothing else. */
  lemma TrimDecomposes(s: string) returns (pre: string, post: string)
    ensures AllSpace(pre) && AllSpace(post)
    ensures s == pre + Trim(s) + post
    ensures Trimmed(Trim(s))
  {
    pre := TrimStartDecomposes(s);
    post := TrimEndDecomposes(TrimStart(s));
    if Trim(s) != [] {
      assert TrimStart(s)[0] == Trim(s)[0];
    }
  }

  lemma {:induction false} TrimStartDecomposes(s: string) returns (pre: string)
    ensures AllSpace(pre) && s == pre + TrimStart(s)
    ensures TrimStart(s) == [] || !IsSpace(TrimStart(s)[0])
  {
    pre := [];
    if s != [] && IsSpace(s[0]) {
      var rest := TrimStartDecomposes(s[1..]);
      pre := [s[0]] + rest;
    }
  }

  lemma {:induction false} TrimEndDecomposes(s: string) returns (post: string)
    ensures AllSpace(post) && s == TrimEnd(s) + post
    ensures TrimEnd(s) == [] || !IsSpace(TrimEnd(s)[|TrimEnd(s)| - 1])
  {
    post := [];
    if s != [] && IsSpace(s[|s| - 1]) {
      var rest := TrimEndDecomposes(s[..|s| - 1]);
      post := rest + [s[|s| - 1]];
    }
  }

  lemma {:induction false} TrimmedIsFixed(s: string)
    requires Trimmed(s)
    ensures Trim(s) == s
  {
  }

  lemma {:induction false} TrimStartSkips(pre: string, s: string)
    requires AllSpace(pre)
    ensures TrimStart(pre + s) == TrimStart(s)
  {
    if pre == [] {
      assert pre + s == s;
    } else {
      assert (pre + s)[1..] == pre[1..] + s;
      TrimStartSkips(pre[1..], s);
    }
  }

  lemma {:induction false} TrimEndSkips(s: string, post: string)
    requires AllSpace(post)
    ensures TrimEnd(s + post) == TrimEnd(s)
  {
    if post == [] {
      assert s + post == s;
    } else {
      assert (s + post)[..|s + post| - 1] == s + post[..|post| - 1];
      TrimEndSkips(s, post[..|post| - 1]);
    }
  }

  lemma TrimPadded(pre: string, s: string, post: string)
    requires AllSpace(pre) && AllSpace(post) && Trimmed(s)
    ensures Trim(pre + s + post) == s
  {
    assert pre + s + post == pre + (s + post);
    TrimStartSkips(pre, s + post);
    if s == [] {
      assert s + post == post == post + [];
      TrimStartSkips(post, []);
    } else {
      TrimEndSkips(s, post);
    }
  }

  /** Whitespace put around a string does not show once it is trimmed. */
  lemma TrimIgnoresSpace(pre: string, s: string, post: string)
    requires AllSpace(pre) && AllSpace(post)
    ensures Trim(pre + s + post) == Trim(s)
  {
    var p, q := TrimDecomposes(s);
    assert pre + s + post == (pre + p) + Trim(s) + (q + post);
    TrimPadded(pre + p, Trim(s), q + post);
  }

  /** The pieces trimmed, blank ones dropped. */
  function TrimAll(pieces: seq<string>): seq<string> {
    if pieces == [] then []
    else
      var t := Trim(pieces[0]);
      (if t == [] then [] else [t]) + TrimAll(pieces[1..])
  }

  lemma TrimAllOne(piece: string)
    ensures TrimAll([piece]) == if Trim(piece) == [] then [] else [Trim(piece)]
  {
    assert TrimAll([piece][1..]) == [];
  }

  /** The index of the first character that is not whitespace, from `q` on. */
  function RunEnd(s: string, q: nat): (e: nat)
    requires q <= |s|
    ensures q <= e <= |s|
    ensures AllSpace(s[q..e]) && (e < |s| ==> !IsSpace(s[e]))
    decreases |s| - q
  {
    if q < |s| && IsSpace(s[q]) then
      var e := RunEnd(s, q + 1);
      assert s[q..e] == [s[q]] + s[q + 1..e];
      e
    else q
  }

  /**
   `split` on a whitespace run whose start satisfies a look-behind condition on the
   text before it: `p` is where the current piece began and `q` is the scan position.
   */
  function Split(s: string, p: nat, q: nat, behind: string -> bool): (pieces: seq<string>)
    requires p <= q <= |s|
    decreases |s| - q
  {
    if q == |s| then [s[p..]]
    else if IsSpace(s[q]) && behind(s[..q]) then
      var e := RunEnd(s, q);
      [s[p..q]] + Split(s, e, e, behind)
    else Split(s, p, q + 1, behind)
  }

  lemma {:induction false} SplitHasPiece(s: string, p: nat, q: nat, behind: string -> bool)
    requires p <= q <= |s|
    ensures Split(s, p, q, behind) != [] && |Split(s, p, q, behind)[0]| <= |s| - p
    decreases |s| - q
  {
    if q < |s| && !(IsSpace(s[q]) && behind(s[..q])) { SplitHasPiece(s, p, q + 1, behind); }
  }

  /** The length of the leading run of non-whitespace characters. */
  function WordEnd(s: string): (n: nat)
    ensures n <= |s| && NoSpace(s[..n]) && (n < |s| ==> IsSpace(s[n]))
  {
    if s == [] || IsSpace(s[0]) then 0
    else
      var n := 1 + WordEnd(s[1..]);
      assert s[..n] == [s[0]] + s[1..][..n - 1];
      n
  }

  /** The maximal runs of non-whitespace characters of `s`, in order. */
  function Words(s: string): (ws: seq<string>)
    decreases |s|
  {
    if s == [] then []
    else if IsSpace(s[0]) then Words(s[1..])
    else
      var n := WordEnd(s);
      assert n > 0;
      [s[..n]] + Words(s[n..])
  }

  ghost predicate IsWord(w: string) {
    w != [] && NoSpace(w)
  }

  ghost predicate AreWords(ws: seq<string>) {
    forall i :: 0 <= i < |ws| ==> IsWord(ws[i])
  }

  lemma {:induction false} WordsAreWords(s: string)
    ensures AreWords(Words(s))
    decreases |s|
  {
    if s != [] {
      if IsSpace(s[0]) { WordsAreWords(s[1..]); } else { WordsAreWords(s[WordEnd(s)..]); }
    }
  }

  /** Word extraction distributes over a cut that does not fall inside a word. */
  lemma {:induction false} WordsAppend(a: string, b: string)
    requires a == [] || b == [] || IsSpace(b[0]) || IsSpace(a[|a| - 1])
    ensures Words(a + b) == Words(a) + Words(b)
    decreases |a|
  {
    if a == [] {
      assert a + b == b;
    } else if IsSpace(a[0]) {
      assert (a + b)[1..] == a[1..] + b;
      WordsAppend(a[1..], b);
    } else {
      var n := WordEnd(a);
      WordEndAppend(a, b);
      TakeDrop(a, b, n);
      WordsAppend(a[n..], b);
      assert [a[..n]] + (Words(a[n..]) + Words(b)) == [a[..n]] + Words(a[n..]) + Words(b);
    }
  }

  lemma TakeDrop(a: string, b: string, n: nat)
    requires n <= |a|
    ensures (a + b)[..n] == a[..n] && (a + b)[n..] == a[n..] + b
  {
  }

  lemma {:induction false} WordEndAppend(a: string, b: string)
    requires WordEnd(a) < |a| || b == [] || IsSpace(b[0])
    ensures WordEnd(a + b) == WordEnd(a)
  {
    if a == [] {
      assert a + b == b;
    } else if !IsSpace(a[0]) {
      assert (a + b)[1..] == a[1..] + b;
      WordEndAppend(a[1..], b);
    }
  }

  lemma {:induction false} WordsOfSpaces(s: string)
    requires AllSpace(s)
    ensures Words(s) == []
  {
    if s != [] { WordsOfSpaces(s[1..]); }
  }

  /** Trimming loses no word. */
  lemma WordsTrim(s: string)
    ensures Words(Trim(s)) == Words(s)
  {
    var pre, post := TrimDecomposes(s);
    WordsAppend(pre + Trim(s), post);
    WordsAppend(pre, Trim(s));
    WordsOfSpaces(pre);
    WordsOfSpaces(post);
  }

  function WordsOfAll(pieces: seq<string>): (ws: seq<string>) {
    if pieces == [] then [] else Words(pieces[0]) + WordsOfAll(pieces[1..])
  }

  /** Splitting on whitespace loses no word, whatever the look-behind. */
  lemma {:induction false} SplitKeepsWords(s: string, p: nat, q: nat, behind: string -> bool)
    requires p <= q <= |s|
    ensures WordsOfAll(Split(s, p, q, behind)) == Words(s[p..])
    decreases |s| - q
  {
    var pieces := Split(s, p, q, behind);
    if q == |s| {
      assert WordsOfAll(pieces) == Words(s[p..]) + WordsOfAll([]);
    } else if IsSpace(s[q]) && behind(s[..q]) {
      var e := RunEnd(s, q);
      SplitKeepsWords(s, e, e, behind);
      assert pieces[0] == s[p..q] && pieces[1..] == Split(s, e, e, behind);
      assert s[p..] == s[p..q] + s[q..];
      WordsAppend(s[p..q], s[q..]);
      RunHasNoWords(s, q);
    } else {
      SplitKeepsWords(s, p, q + 1, behind);
    }
  }

  /** Splitting a trimmed text on every whitespace run yields exactly its words. */
  lemma {:induction false} SplitTrimmedIsWords(s: string, p: nat, q: nat)
    requires p <= q <= |s| && p < |s|
    requires NoSpace(s[p..q]) && !IsSpace(s[p]) && !IsSpace(s[|s| - 1])
    ensures Split(s, p, q, _ => true) == Words(s[p..])
    decreases |s| - q
  {
    var w := s[p..];
    if q == |s| {
      assert w == s[p..q];
      WordIsItsOnlyWord(w);
    } else if IsSpace(s[q]) {
      var e := RunEnd(s, q);
      RunEndsBeforeEnd(s, q);
      SplitTrimmedIsWords(s, e, e);
      WordThenRun(s, p, q);
    } else {
      assert s[p..q + 1] == s[p..q] + [s[q]];
      SplitTrimmedIsWords(s, p, q + 1);
    }
  }

  lemma {:induction false} RunEndsBeforeEnd(s: string, q: nat)
    requires q < |s| && !IsSpace(s[|s| - 1])
    ensures RunEnd(s, q) < |s|
    decreases |s| - q
  {
    if IsSpace(s[q]) { RunEndsBeforeEnd(s, q + 1); }
  }

  lemma WordThenRun(s: string, p: nat, q: nat)
    requires p < q < |s| && NoSpace(s[p..q]) && IsSpace(s[q])
    ensures Words(s[p..]) == [s[p..q]] + Words(s[RunEnd(s, q)..])
  {
    var w, rest := s[p..q], s[q..];
    assert s[p..] == w + rest;
    assert rest[0] == s[q];
    WordsAppend(w, rest);
    WordIsItsOnlyWord(w);
    RunHasNoWords(s, q);
  }

  lemma RunHasNoWords(s: string, q: nat)
    requires q <= |s|
    ensures Words(s[q..]) == Words(s[RunEnd(s, q)..])
  {
    var e := RunEnd(s, q);
    var run, rest := s[q..e], s[e..];
    assert s[q..] == run + rest;
    if q < e { assert run[|run| - 1] == run[e - q - 1]; }
    WordsAppend(run, rest);
    WordsOfSpaces(run);
  }

  lemma {:induction false} WordIsItsOnlyWord(w: string)
    requires IsWord(w)
    ensures Words(w) == [w]
  {
    WordEndOfWord(w);
    assert w[..|w|] == w && w[|w|..] == [];
  }

  lemma {:induction false} WordEndOfWord(w: string)
    requires NoSpace(w)
    ensures WordEnd(w) == |w|
  {
    if w != [] { WordEndOfWord(w[1..]); }
  }

  /** `words.join(' ')` */
  function Join(ws: seq<string>): (s: string) {
    if ws == [] then [] else if |ws| == 1 then ws[0] else ws[0] + " " + Join(ws[1..])
  }

  /** Joining with single spaces and extracting words undo each other. */
  lemma {:induction false} WordsJoin(ws: seq<string>)
    requires AreWords(ws)
    ensures Words(Join(ws)) == ws
  {
    if |ws| == 1 {
      WordIsItsOnlyWord(ws[0]);
    } else if |ws| > 1 {
      WordsJoin(ws[1..]);
      WordIsItsOnlyWord(ws[0]);
      WordsAppend(ws[0] + " ", Join(ws[1..]));
      WordsAppend(ws[0], " ");
      WordsOfSpaces(" ");
    }
  }

  /** Whitespace is a single space between two other characters. */
  ghost predicate SingleSpaced(s: string) {
    forall i :: 0 <= i < |s| && IsSpace(s[i]) ==>
      s[i] == ' ' && 0 < i < |s| - 1 && !IsSpace(s[i - 1]) && !IsSpace(s[i + 1])
  }

  lemma {:induction false} JoinIsSingleSpaced(ws: seq<string>)
    requires AreWords(ws)
    ensures SingleSpaced(Join(ws)) && (ws != [] ==> Join(ws) != [] && !IsSpace(Join(ws)[0]))
  {
    if |ws| > 1 {
      JoinIsSingleSpaced(ws[1..]);
      SpacedAppend(ws[0], Join(ws[1..]));
    }
  }

  lemma SpacedAppend(w: string, rest: string)
    requires IsWord(w) && SingleSpaced(rest) && rest != [] && !IsSpace(rest[0])
    ensures SingleSpaced(w + " " + rest) && !IsSpace((w + " " + rest)[0])
  {
    var s := w + " " + rest;
    forall i | 0 <= i < |s| && IsSpace(s[i])
      ensures s[i] == ' ' && 0 < i < |s| - 1 && !IsSpace(s[i - 1]) && !IsSpace(s[i + 1])
    {
      if i > |w| {
        assert s[i] == rest[i - |w| - 1] && s[i - 1] == (if i == |w| + 1 then ' ' else rest[i - |w| - 2]);
      } else {
        assert i == |w| && s[i - 1] == w[i - 1] && s[i + 1] == rest[0];
      }
    }
  }
}
