/**
 Splitting a text into sentences.

 The sentences are tied to the text's words without the splitter: every word belongs to one
 sentence, and a sentence ends where a terminator with closers behind it does.
 */
module Sentences {
  import opened Text

  // ---------------------------------------------------------------------------
  // Sentence splitting
  // ---------------------------------------------------------------------------

  predicate IsTerminator(c: char) {
    c == '.' || c == '!' || c == '?'
  }

  predicate IsCloser(c: char) {
    c == '"' || c == '\'' || c == ')' || c == ']' || c == '}'
  }

  /** The look-behind of the splitter: a terminator followed only by closers and whitespace. */
  predicate EndsSentence(before: string) {
    before != [] &&
    var last := before[|before| - 1];
    || IsTerminator(last)
    || ((IsCloser(last) || IsSpace(last)) && EndsSentence(before[..|before| - 1]))
  }

  function SplitIntoSentences(text: string): seq<string> {
    TrimAll(Split(text, 0, 0, EndsSentence))
  }

  /** Position `q` holds whitespace that separates two sentences. */
  predicate InGap(s: string, q: nat)
    requires q < |s|
  {
    IsSpace(s[q]) && EndsSentence(s[..q])
  }

  /** `s` from `q` on without the whitespace that separates sentences. */
  function WithoutGaps(s: string, q: nat): string
    requires q <= |s|
    decreases |s| - q
  {
    if q == |s| then []
    else (if InGap(s, q) then [] else [s[q]]) + WithoutGaps(s, q + 1)
  }

  /** The number of maximal separating runs that begin at `q` or later. */
  function GapCount(s: string, q: nat): nat
    requires q <= |s|
    decreases |s| - q
  {
    if q == |s| then 0
    else (if InGap(s, q) && (q == 0 || !InGap(s, q - 1)) then 1 else 0) + GapCount(s, q + 1)
  }

  function Concat(pieces: seq<string>): string {
    if pieces == [] then [] else pieces[0] + Concat(pieces[1..])
  }

  /**
   Cutting at sentence boundaries deletes exactly the separating whitespace, one cut for
   each maximal run of it.
   */
  lemma SentenceSplitDeletesGaps(s: string)
    ensures Concat(Split(s, 0, 0, EndsSentence)) == WithoutGaps(s, 0)
    ensures |Split(s, 0, 0, EndsSentence)| == 1 + GapCount(s, 0)
  {
    SplitDeletesGaps(s, 0, 0);
    SplitCountsGaps(s, 0, 0);
  }

  lemma {:induction false} SplitDeletesGaps(s: string, p: nat, q: nat)
    requires p <= q <= |s|
    ensures Concat(Split(s, p, q, EndsSentence)) == s[p..q] + WithoutGaps(s, q)
    decreases |s| - q
  {
    if q == |s| {
      ConcatCons(s[p..], []);
      assert s[p..q] == s[p..] && WithoutGaps(s, q) == [];
    } else if InGap(s, q) {
      var e := RunEnd(s, q);
      GapRun(s, q);
      SplitDeletesGaps(s, e, e);
      ConcatCons(s[p..q], Split(s, e, e, EndsSentence));
    } else {
      SplitDeletesGaps(s, p, q + 1);
      assert s[p..q + 1] == s[p..q] + [s[q]];
    }
  }

  lemma ConcatCons(piece: string, rest: seq<string>)
    ensures Concat([piece] + rest) == piece + Concat(rest)
  {
    assert ([piece] + rest)[1..] == rest;
  }

  lemma {:induction false} SplitCountsGaps(s: string, p: nat, q: nat)
    requires p <= q <= |s|
    requires q == 0 || q == |s| || !InGap(s, q - 1) || !IsSpace(s[q])
    ensures |Split(s, p, q, EndsSentence)| == 1 + GapCount(s, q)
    decreases |s| - q
  {
    if q < |s| {
      if InGap(s, q) {
        GapRun(s, q);
        SplitCountsGaps(s, RunEnd(s, q), RunEnd(s, q));
      } else {
        SplitCountsGaps(s, p, q + 1);
      }
    }
  }

  /** A whitespace run that starts separating separates all along. */
  lemma {:induction false} GapRun(s: string, q: nat)
    requires q < |s| && InGap(s, q)
    ensures RunEnd(s, q) > q && InGap(s, RunEnd(s, q) - 1)
    ensures WithoutGaps(s, q) == WithoutGaps(s, RunEnd(s, q))
    ensures GapCount(s, q) == GapCount(s, RunEnd(s, q)) + (if q == 0 || !InGap(s, q - 1) then 1 else 0)
    decreases |s| - q
  {
    if q + 1 < |s| && IsSpace(s[q + 1]) {
      assert s[..q + 1][..q] == s[..q];
      GapRun(s, q + 1);
    } else {
      assert RunEnd(s, q) == q + 1;
    }
  }

  // ---------------------------------------------------------------------------
  // The sentences as lists of words
  // ---------------------------------------------------------------------------

  function Flatten(parts: seq<seq<string>>): (ws: seq<string>) {
    if parts == [] then [] else Flatten(parts[..|parts| - 1]) + parts[|parts| - 1]
  }

  function WordsOfEach(pieces: seq<string>): (parts: seq<seq<string>>)
    ensures |parts| == |pieces|
    ensures forall i :: 0 <= i < |parts| ==> parts[i] == Words(pieces[i])
  {
    seq(|pieces|, i requires 0 <= i < |pieces| => Words(pieces[i]))
  }

  /** The text as a list of sentences, each a list of words. */
  function SentenceWords(text: string): seq<seq<string>> {
    WordsOfEach(SplitIntoSentences(Trim(text)))
  }

  /** The sentences together hold exactly the words of the text. */
  lemma SentencesKeepWords(text: string)
    ensures Flatten(SentenceWords(text)) == Words(text)
  {
    var t := Trim(text);
    WordsTrim(text);
    SplitKeepsWords(t, 0, 0, EndsSentence);
    assert t[0..] == t;
    TrimAllKeepsWords(Split(t, 0, 0, EndsSentence));
    FlattenWordsOfEach(SplitIntoSentences(t));
  }

  lemma {:induction false} TrimAllKeepsWords(pieces: seq<string>)
    ensures WordsOfAll(TrimAll(pieces)) == WordsOfAll(pieces)
  {
    if pieces != [] {
      TrimAllKeepsWords(pieces[1..]);
      WordsTrim(pieces[0]);
      var t := Trim(pieces[0]);
      if t == [] {
        assert TrimAll(pieces) == TrimAll(pieces[1..]);
      } else {
        assert TrimAll(pieces)[1..] == TrimAll(pieces[1..]);
      }
    }
  }

  lemma {:induction false} FlattenWordsOfEach(pieces: seq<string>)
    ensures Flatten(WordsOfEach(pieces)) == WordsOfAll(pieces)
  {
    if pieces != [] {
      var last := |pieces| - 1;
      FlattenWordsOfEach(pieces[..last]);
      assert WordsOfEach(pieces)[..last] == WordsOfEach(pieces[..last]);
      WordsOfAllAppend(pieces[..last], pieces[last]);
      assert pieces == pieces[..last] + [pieces[last]];
    }
  }

  lemma {:induction false} WordsOfAllAppend(pieces: seq<string>, piece: string)
    ensures WordsOfAll(pieces + [piece]) == WordsOfAll(pieces) + Words(piece)
  {
    if pieces != [] {
      assert (pieces + [piece])[1..] == pieces[1..] + [piece];
      WordsOfAllAppend(pieces[1..], piece);
    }
  }

  // ---------------------------------------------------------------------------
  // What a sentence is, without the splitter
  // ---------------------------------------------------------------------------

  /** A terminator before `q`, and only closing quotes, closing brackets and whitespace in between. */
  ghost predicate StopsBefore(s: string, q: nat)
    requires q <= |s|
  {
    exists t :: 0 <= t < q && s[t] in ".!?" && forall i :: t < i < q ==> s[i] in "\"')]}" || IsSpace(s[i])
  }

  lemma {:induction false} EndsSentenceExactly(before: string)
    ensures EndsSentence(before) <==> StopsBefore(before, |before|)
  {
    if before != [] {
      var n := |before| - 1;
      EndsSentenceExactly(before[..n]);
      Closers(before[n]);
      StopsBeforePrefix(before, before[..n], n);
      StopsBeforeNext(before, n);
    }
  }

  lemma StopsBeforePrefix(s: string, prefix: string, q: nat)
    requires q <= |prefix| && prefix <= s
    ensures StopsBefore(prefix, q) <==> StopsBefore(s, q)
  {
    assert forall i :: 0 <= i < q ==> s[i] == prefix[i];
  }

  lemma StopsBeforeNext(s: string, q: nat)
    requires q < |s|
    ensures StopsBefore(s, q + 1) <==>
      s[q] in ".!?" || ((s[q] in "\"')]}" || IsSpace(s[q])) && StopsBefore(s, q))
  {
    if s[q] in ".!?" {
      assert StopsBefore(s, q + 1);
    }
    if StopsBefore(s, q + 1) && s[q] !in ".!?" {
      var t :| 0 <= t < q + 1 && s[t] in ".!?" && forall i :: t < i < q + 1 ==> s[i] in "\"')]}" || IsSpace(s[i]);
      assert t < q;
    }
  }

  /** A position separates two sentences if and only if it is whitespace behind a stop. */
  lemma InGapExactly(s: string, q: nat)
    requires q < |s|
    ensures InGap(s, q) <==> IsSpace(s[q]) && StopsBefore(s, q)
  {
    EndsSentenceExactly(s[..q]);
    StopsBeforePrefix(s, s[..q], q);
  }

  /** Character `p` of word `j` is a terminator, and every character after it closes. */
  ghost predicate StopAt(ws: seq<string>, j: nat, p: nat)
    requires j < |ws| && p < |ws[j]|
  {
    && ws[j][p] in ".!?"
    && (forall i :: p < i < |ws[j]| ==> ws[j][i] in "\"')]}")
    && (forall m, i :: j < m < |ws| && 0 <= i < |ws[m]| ==> ws[m][i] in "\"')]}")
  }

  /** The words end with a terminator and closers, which may be words of their own. */
  ghost predicate Stopped(ws: seq<string>) {
    exists j, p :: 0 <= j < |ws| && 0 <= p < |ws[j]| && StopAt(ws, j, p)
  }

  lemma StoppedEmpty(ws: seq<string>)
    ensures Stopped(ws + [[]]) <==> Stopped(ws)
  {
    var all := ws + [[]];
    if Stopped(ws) {
      var j, p :| 0 <= j < |ws| && 0 <= p < |ws[j]| && StopAt(ws, j, p);
      assert StopAt(all, j, p);
    }
    if Stopped(all) {
      var j, p :| 0 <= j < |all| && 0 <= p < |all[j]| && StopAt(all, j, p);
      assert j < |ws| && ws[j] == all[j];
      assert forall m :: 0 <= m < |ws| ==> all[m] == ws[m];
      assert StopAt(ws, j, p);
    }
  }

  lemma StoppedAtLast(ws: seq<string>, w: string, c: char)
    requires c in ".!?"
    ensures Stopped(ws + [w + [c]])
  {
    assert StopAt(ws + [w + [c]], |ws|, |w|);
  }

  lemma StoppedMore(ws: seq<string>, w: string, c: char)
    requires c in "\"')]}" && Stopped(ws + [w])
    ensures Stopped(ws + [w + [c]])
  {
    var all, more := ws + [w], ws + [w + [c]];
    var j, p :| 0 <= j < |all| && 0 <= p < |all[j]| && StopAt(all, j, p);
    assert forall m :: 0 <= m < |ws| ==> all[m] == more[m] == ws[m];
    assert all[|ws|] == w && more[|ws|] == w + [c];
    assert forall i :: 0 <= i < |w| ==> more[|ws|][i] == w[i];
    assert StopAt(more, j, p);
  }

  lemma StoppedLess(ws: seq<string>, w: string, c: char)
    requires c !in ".!?" && Stopped(ws + [w + [c]])
    ensures c in "\"')]}" && Stopped(ws + [w])
  {
    var all, more := ws + [w], ws + [w + [c]];
    var j, p :| 0 <= j < |more| && 0 <= p < |more[j]| && StopAt(more, j, p);
    assert more[|ws|][|w|] == c;
    assert forall m :: 0 <= m < |ws| ==> all[m] == more[m] == ws[m];
    assert forall i :: 0 <= i < |w| ==> more[|ws|][i] == w[i];
    assert StopAt(all, j, p);
  }

  /** The word that ends a text. */
  lemma {:induction false} LastWord(s: string) returns (n: nat)
    requires s != [] && !IsSpace(s[|s| - 1])
    ensures n < |s| && NoSpace(s[n..]) && (n == 0 || IsSpace(s[n - 1]))
    ensures Words(s) == Words(s[..n]) + [s[n..]]
  {
    n := LastWordStart(s, |s| - 1);
    assert s == s[..n] + s[n..];
    WordsAppend(s[..n], s[n..]);
    WordIsItsOnlyWord(s[n..]);
  }

  lemma {:induction false} LastWordStart(s: string, k: nat) returns (n: nat)
    requires k < |s| && NoSpace(s[k..])
    ensures n <= k && NoSpace(s[n..]) && (n == 0 || IsSpace(s[n - 1]))
    decreases k
  {
    if k == 0 || IsSpace(s[k - 1]) {
      n := k;
    } else {
      assert s[k - 1..] == [s[k - 1]] + s[k..];
      n := LastWordStart(s, k - 1);
    }
  }

  /** The look-behind reads only the words. */
  lemma {:induction false} EndsSentenceByWords(before: string)
    ensures EndsSentence(before) <==> Stopped(Words(before))
    decreases |before|
  {
    if before != [] {
      var front, c := before[..|before| - 1], before[|before| - 1];
      EndsSentenceByWords(front);
      if IsSpace(c) {
        assert before == front + [c];
        WordsAppend(front, [c]);
        WordsOfSpaces([c]);
        assert Words(front) + [] == Words(front);
      } else {
        EndsSentenceOfWord(before);
      }
    }
  }

  /** The words of a text, and those without the last character of its last word. */
  lemma FrontByWords(s: string) returns (ws: seq<string>, w: string)
    requires s != [] && !IsSpace(s[|s| - 1])
    ensures Words(s) == ws + [w + [s[|s| - 1]]]
    ensures Words(s[..|s| - 1]) == if w == [] then ws else ws + [w]
  {
    var n := LastWord(s);
    ws, w := Words(s[..n]), s[n..|s| - 1];
    assert s[n..] == w + [s[|s| - 1]];
    FrontWords(s, n);
  }

  lemma FrontWords(s: string, n: nat)
    requires n < |s| && NoSpace(s[n..]) && (n == 0 || IsSpace(s[n - 1]))
    ensures var w := s[n..|s| - 1];
      Words(s[..|s| - 1]) == if w == [] then Words(s[..n]) else Words(s[..n]) + [w]
  {
    var w := s[n..|s| - 1];
    assert s[..|s| - 1] == s[..n] + w;
    assert forall i :: 0 <= i < |w| ==> w[i] == s[n..][i];
    WordsAppend(s[..n], w);
    if w != [] { WordIsItsOnlyWord(w); }
  }

  lemma StoppedSnoc(ws: seq<string>, w: string, c: char)
    ensures Stopped(ws + [w + [c]]) <==> c in ".!?" || (c in "\"')]}" && Stopped(ws + [w]))
  {
    if c in ".!?" {
      StoppedAtLast(ws, w, c);
    } else {
      if Stopped(ws + [w + [c]]) { StoppedLess(ws, w, c); }
      if c in "\"')]}" && Stopped(ws + [w]) { StoppedMore(ws, w, c); }
    }
  }

  lemma Closers(c: char)
    ensures IsTerminator(c) <==> c in ".!?"
    ensures IsCloser(c) <==> c in "\"')]}"
  {
  }

  lemma EndsSentenceOfWord(s: string)
    requires s != [] && !IsSpace(s[|s| - 1])
    requires EndsSentence(s[..|s| - 1]) <==> Stopped(Words(s[..|s| - 1]))
    ensures EndsSentence(s) <==> Stopped(Words(s))
  {
    var ws, w := FrontByWords(s);
    StoppedEmpty(ws);
    StoppedSnoc(ws, w, s[|s| - 1]);
    Closers(s[|s| - 1]);
  }

  /** No part is empty; the words up to the end of each part but the last stop there, and nowhere inside it. */
  ghost predicate Grouped(parts: seq<seq<string>>, before: seq<string>) {
    parts == [] ||
    (&& parts[0] != []
     && (forall m :: 0 < m < |parts[0]| ==> !Stopped(before + parts[0][..m]))
     && (|parts| > 1 ==> Stopped(before + parts[0]))
     && Grouped(parts[1..], before + parts[0]))
  }

  /** The sentences of a text, each a list of words. */
  ghost predicate IsSentences(text: string, parts: seq<seq<string>>) {
    Flatten(parts) == Words(text) && Grouped(parts, [])
  }

  /** Whitespace inside a text lies between words. */
  lemma {:induction false} WordPosition(x: string, m: nat) returns (k: nat)
    requires 0 < m < |Words(x)|
    ensures 0 < k < |x| && IsSpace(x[k]) && Words(x[..k]) == Words(x)[..m]
    decreases |x|
  {
    if IsSpace(x[0]) {
      var k' := WordPosition(x[1..], m);
      k := k' + 1;
      assert x[..k] == [x[0]] + x[1..][..k'];
      WordsAppend([x[0]], x[1..][..k']);
      WordsOfSpaces([x[0]]);
    } else {
      var e := WordEnd(x);
      assert Words([]) == [] && x[|x|..] == [];
      WordIsItsOnlyWord(x[..e]);
      if m == 1 {
        k := e;
      } else {
        var k' := WordPosition(x[e..], m - 1);
        k := e + k';
        assert x[..k] == x[..e] + x[e..][..k'];
        WordsAppend(x[..e], x[e..][..k']);
      }
    }
  }

  lemma PieceHasNoStop(s: string, p: nat, q: nat)
    requires p <= q <= |s| && (p == 0 || IsSpace(s[p - 1]))
    requires forall k :: p <= k < q && IsSpace(s[k]) ==> !EndsSentence(s[..k])
    ensures forall m :: 0 < m < |Words(s[p..q])| ==> !Stopped(Words(s[..p]) + Words(s[p..q])[..m])
  {
    forall m | 0 < m < |Words(s[p..q])| ensures !Stopped(Words(s[..p]) + Words(s[p..q])[..m]) {
      var k := WordPosition(s[p..q], m);
      assert s[..p + k] == s[..p] + s[p..q][..k] && s[p..q][k] == s[p + k];
      WordsAppend(s[..p], s[p..q][..k]);
      EndsSentenceByWords(s[..p + k]);
    }
  }

  lemma StartsWord(s: string)
    requires s != [] && !IsSpace(s[0])
    ensures Words(s) != []
  {
  }

  lemma WordsOfEachCons(piece: string, rest: seq<string>)
    ensures WordsOfEach([piece] + rest) == [Words(piece)] + WordsOfEach(rest)
  {
  }

  lemma WordsUpTo(s: string, p: nat, q: nat)
    requires p <= q <= |s| && (p == 0 || IsSpace(s[p - 1]))
    ensures Words(s[..q]) == Words(s[..p]) + Words(s[p..q])
    ensures Words(s[..RunEnd(s, q)]) == Words(s[..q])
  {
    var e := RunEnd(s, q);
    assert s[..q] == s[..p] + s[p..q] && s[..e] == s[..q] + s[q..e];
    WordsAppend(s[..p], s[p..q]);
    WordsAppend(s[..q], s[q..e]);
    WordsOfSpaces(s[q..e]);
  }

  lemma {:induction false} SplitIsGrouped(s: string, p: nat, q: nat)
    requires p <= q <= |s| && p < |s| && !IsSpace(s[p]) && !IsSpace(s[|s| - 1]) && (p == 0 || IsSpace(s[p - 1]))
    requires forall k :: p <= k < q && IsSpace(s[k]) ==> !EndsSentence(s[..k])
    ensures Grouped(WordsOfEach(Split(s, p, q, EndsSentence)), Words(s[..p]))
    decreases |s| - q
  {
    if q == |s| {
      assert s[p..] == s[p..q];
      PieceHasNoStop(s, p, q);
      StartsWord(s[p..q]);
    } else if IsSpace(s[q]) && EndsSentence(s[..q]) {
      var e := RunEnd(s, q);
      RunEndsBeforeEnd(s, q);
      assert IsSpace(s[e - 1]) by { assert s[e - 1] == s[q..e][e - 1 - q]; }
      SplitIsGrouped(s, e, e);
      PieceThenGap(s, p, q, Split(s, e, e, EndsSentence));
    } else {
      SplitIsGrouped(s, p, q + 1);
    }
  }

  lemma PieceThenGap(s: string, p: nat, q: nat, rest: seq<string>)
    requires p < q < |s| && !IsSpace(s[p]) && (p == 0 || IsSpace(s[p - 1])) && EndsSentence(s[..q])
    requires forall k :: p <= k < q && IsSpace(s[k]) ==> !EndsSentence(s[..k])
    requires Grouped(WordsOfEach(rest), Words(s[..RunEnd(s, q)]))
    ensures Grouped(WordsOfEach([s[p..q]] + rest), Words(s[..p]))
  {
    PieceHasNoStop(s, p, q);
    StartsWord(s[p..q]);
    WordsUpTo(s, p, q);
    EndsSentenceByWords(s[..q]);
    GroupedCons(Words(s[p..q]), WordsOfEach(rest), Words(s[..p]));
    WordsOfEachCons(s[p..q], rest);
  }

  lemma GroupedCons(part: seq<string>, rest: seq<seq<string>>, before: seq<string>)
    requires part != [] && forall m :: 0 < m < |part| ==> !Stopped(before + part[..m])
    requires Stopped(before + part) && Grouped(rest, before + part)
    ensures Grouped([part] + rest, before)
  {
    assert ([part] + rest)[1..] == rest;
  }

  lemma {:induction false} GroupedAreNotEmpty(parts: seq<seq<string>>, before: seq<string>)
    requires Grouped(parts, before)
    ensures forall i :: 0 <= i < |parts| ==> parts[i] != []
  {
    if parts != [] { GroupedAreNotEmpty(parts[1..], before + parts[0]); }
  }

  /** Trimming drops no piece that has a word. */
  lemma {:induction false} TrimAllKeepsEach(pieces: seq<string>)
    requires forall i :: 0 <= i < |pieces| ==> Words(pieces[i]) != []
    ensures WordsOfEach(TrimAll(pieces)) == WordsOfEach(pieces)
  {
    if pieces != [] {
      TrimAllKeepsEach(pieces[1..]);
      WordsTrim(pieces[0]);
      assert Words([]) == [];
      WordsOfEachCons(Trim(pieces[0]), TrimAll(pieces[1..]));
      WordsOfEachCons(pieces[0], pieces[1..]);
      assert pieces == [pieces[0]] + pieces[1..];
    }
  }

  /** The splitter finds the sentences. */
  lemma SplitterFindsSentences(text: string)
    ensures IsSentences(text, SentenceWords(text))
  {
    var t := Trim(text);
    var pre, post := TrimDecomposes(text);
    SentencesKeepWords(text);
    if t == [] {
      TrimAllOne([]);
      assert SplitIntoSentences(t) == [];
    } else {
      var pieces := Split(t, 0, 0, EndsSentence);
      SplitIsGrouped(t, 0, 0);
      assert t[..0] == [] && Words(t[..0]) == [];
      GroupedAreNotEmpty(WordsOfEach(pieces), []);
      TrimAllKeepsEach(pieces);
    }
  }

  lemma {:induction false} FlattenCons(part: seq<string>, rest: seq<seq<string>>)
    ensures Flatten([part] + rest) == part + Flatten(rest)
  {
    if rest == [] {
      assert [part] + rest == [part] && [part][..0] == [];
    } else {
      var all := [part] + rest;
      assert all[..|all| - 1] == [part] + rest[..|rest| - 1];
      FlattenCons(part, rest[..|rest| - 1]);
    }
  }

  /** A text has one list of sentences. */
  lemma {:induction false} SentencesAreUnique(a: seq<seq<string>>, b: seq<seq<string>>, before: seq<string>)
    requires Grouped(a, before) && Grouped(b, before) && Flatten(a) == Flatten(b)
    ensures a == b
  {
    if a != [] && b != [] {
      assert a == [a[0]] + a[1..] && b == [b[0]] + b[1..];
      FlattenCons(a[0], a[1..]);
      FlattenCons(b[0], b[1..]);
      FirstNotShorter(a, b, before);
      FirstNotShorter(b, a, before);
      assert a[0] == Flatten(a)[..|a[0]|] == b[0];
      assert Flatten(a[1..]) == Flatten(a)[|a[0]|..] == Flatten(b[1..]);
      SentencesAreUnique(a[1..], b[1..], before + a[0]);
    } else {
      EmptyIsAlone(a);
      EmptyIsAlone(b);
    }
  }

  lemma EmptyIsAlone(a: seq<seq<string>>)
    ensures a != [] && a[0] != [] ==> Flatten(a) != []
  {
    if a != [] {
      assert a == [a[0]] + a[1..];
      FlattenCons(a[0], a[1..]);
    }
  }

  lemma FirstNotShorter(a: seq<seq<string>>, b: seq<seq<string>>, before: seq<string>)
    requires a != [] && b != [] && Grouped(a, before) && Grouped(b, before)
    requires a[0] + Flatten(a[1..]) == b[0] + Flatten(b[1..])
    ensures |a[0]| >= |b[0]|
  {
    if |a[0]| < |b[0]| {
      PrefixOfLonger(a[0], Flatten(a[1..]), b[0], Flatten(b[1..]));
    }
  }

  lemma PrefixOfLonger(x: seq<string>, u: seq<string>, y: seq<string>, v: seq<string>)
    requires x + u == y + v && |x| < |y|
    ensures x == y[..|x|] && u != []
  {
    assert x == (x + u)[..|x|] && y[..|x|] == (y + v)[..|x|];
  }
}
