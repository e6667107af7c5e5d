/**
 From the raw matches of the PII patterns to the spans that get replaced: the pass that
 trims common words off person names, and the resolution of overlaps.
 */
module PiiSpans {
  import opened Text

  datatype PiiType = PERSON | EMAIL | PHONE | ORG | LOC | GENERIC

  datatype Span = Span(raw: string, piiType: PiiType, start: int, end: int)

  /** The span lies in the text, is not empty and carries the text it covers. */
  ghost predicate Exact(text: string, c: Span) {
    0 <= c.start < c.end <= |text| && c.raw == text[c.start..c.end]
  }

  ghost predicate AllExact(text: string, spans: seq<Span>) {
    forall i :: 0 <= i < |spans| ==> Exact(text, spans[i])
  }

  // ---------------------------------------------------------------------------
  // Trimming common words
  // ---------------------------------------------------------------------------

  /** First words that are no part of a name. */
  function CommonWords(): set<string> {
    Determiners() + Connectives() + Verbs() + Salutations()
  }

  function Determiners(): set<string> {
    {"The", "A", "An", "This", "That", "These", "Those", "We", "It", "Our", "Your", "My", "His", "Her", "Its", "Their"}
  }

  function Connectives(): set<string> {
    {"If", "In", "On", "At", "For", "To", "Of", "And", "Or", "But", "With", "From", "By", "As", "Just", "So", "Also"}
  }

  function Verbs(): set<string> {
    {"Is", "Are", "Was", "Were", "Have", "Has", "Had", "Do", "Does", "Did", "Will", "Would", "Could", "Should", "May",
     "Might", "Let"}
  }

  function Salutations(): set<string> {
    {"Hello", "Hi", "Dear", "Please", "Thank", "Best", "Kind", "Welcome", "Regards", "Sent", "Subject", "Date"}
  }

  /** `raw.split(/\s+/)[0]` */
  function FirstWord(raw: string): (w: string)
    ensures |w| <= |raw|
  {
    SplitHasPiece(raw, 0, 0, _ => true);
    Split(raw, 0, 0, _ => true)[0]
  }

  /** What is left of a match without its first word. */
  function Remainder(raw: string): (rest: string)
    ensures |rest| <= |raw|
  {
    TrimStart(raw[|FirstWord(raw)|..])
  }

  predicate IsName(w: string) {
    |w| >= 2 && 'A' <= w[0] <= 'Z' && forall i :: 1 <= i < |w| ==> 'a' <= w[i] <= 'z'
  }

  /** Two or more capitalised words and whitespace between them, nothing else. */
  predicate IsNamePhrase(s: string) {
    Trimmed(s) && |Words(s)| >= 2 && forall i :: 0 <= i < |Words(s)| ==> IsName(Words(s)[i])
  }

  /** `s.indexOf(t)` from position `p` on; the length of `s` plus one when there is none. */
  function IndexFrom(s: string, t: string, p: nat): (k: nat)
    requires p <= |s|
    decreases |s| - p
  {
    if t <= s[p..] then p else if p == |s| then |s| + 1 else IndexFrom(s, t, p + 1)
  }

  /** The candidate is a person name that starts with a common word. */
  predicate IsDropped(c: Span, common: set<string>) {
    c.piiType == PERSON && FirstWord(c.raw) in common
  }

  /** The candidate without its first word: it starts where the rest first occurs in the match. */
  function Shortened(c: Span): Span {
    var rest := Remainder(c.raw);
    Span(rest, PERSON, c.start + IndexFrom(c.raw, rest, 0), c.end)
  }

  /** A dropped candidate comes back shortened if the rest still looks like a name. */
  function Leftover(c: Span): seq<Span> {
    if IsNamePhrase(Remainder(c.raw)) then [Shortened(c)] else []
  }

  function Kept(cs: seq<Span>, common: set<string>): seq<Span> {
    if cs == [] then []
    else
      var last := cs[|cs| - 1];
      Kept(cs[..|cs| - 1], common) + (if IsDropped(last, common) then [] else [last])
  }

  function Leftovers(cs: seq<Span>, common: set<string>): seq<Span> {
    if cs == [] then []
    else
      var last := cs[|cs| - 1];
      Leftovers(cs[..|cs| - 1], common) + (if IsDropped(last, common) then Leftover(last) else [])
  }

  lemma {:induction false} NothingDropped(cs: seq<Span>, common: set<string>)
    requires forall i :: 0 <= i < |cs| ==> !IsDropped(cs[i], common)
    ensures Kept(cs, common) == cs && Leftovers(cs, common) == []
  {
    if cs != [] {
      var front, last := cs[..|cs| - 1], cs[|cs| - 1];
      NothingDropped(front, common);
      assert cs == front + [last] && front[..] == front;
    }
  }

  /** `findIndex` of the first person name, or the length of the list. */
  function FirstPerson(cs: seq<Span>): (p: nat)
    ensures p <= |cs| && forall i :: 0 <= i < p ==> cs[i].piiType != PERSON
  {
    if cs == [] || cs[0].piiType == PERSON then 0 else 1 + FirstPerson(cs[1..])
  }

  /** The splicing loop terminates and is a filter followed by the leftovers. */
  method TrimCommonWords(cs: seq<Span>, common: set<string>) returns (candidates: seq<Span>)
    ensures candidates == Kept(cs, common) + Leftovers(cs, common)
  {
    candidates := cs;
    var personStart := FirstPerson(cs);
    LoopStarts(cs, personStart, common);
    if personStart == |cs| {
      LoopEnds(cs, personStart, common, candidates, personStart, []);
      return;
    }
    var toReprocess: seq<Span> := [];
    var i: nat := personStart;
    ghost var k := personStart;  // how far into the original list the loop has come
    while i < |candidates|
      invariant k <= |cs| && Looped(cs, k, common, candidates, i, toReprocess)
      decreases |cs| - k
    {
      LoopStep(cs, k, common, candidates, i, toReprocess);
      var c := candidates[i];
      k := k + 1;
      if c.piiType == PERSON {
        var firstWord := FirstWord(c.raw);
        if firstWord in common {
          toReprocess := toReprocess + Leftover(c);
          candidates := candidates[..i] + candidates[i + 1..];
          continue;
        }
      }
      i := i + 1;
    }
    LoopEnds(cs, k, common, candidates, i, toReprocess);
    candidates := candidates + toReprocess;
  }

  /** What the loop has so far after `k` entries of the original list. */
  function Progress(cs: seq<Span>, k: nat, common: set<string>): seq<Span>
    requires k <= |cs|
  {
    Kept(cs[..k], common) + cs[k..]
  }

  /** The loop's variables after `k` entries of the original list. */
  ghost predicate Looped(
      cs: seq<Span>, k: nat, common: set<string>, candidates: seq<Span>, i: nat, toReprocess: seq<Span>)
    requires k <= |cs|
  {
    && i == |Kept(cs[..k], common)|
    && candidates == Progress(cs, k, common)
    && toReprocess == Leftovers(cs[..k], common)
  }

  lemma LoopStarts(cs: seq<Span>, k: nat, common: set<string>)
    requires k <= |cs| && forall i :: 0 <= i < k ==> cs[i].piiType != PERSON
    ensures Looped(cs, k, common, cs, k, [])
  {
    NothingDropped(cs[..k], common);
  }

  lemma LoopEnds(cs: seq<Span>, k: nat, common: set<string>, candidates: seq<Span>, i: nat, toReprocess: seq<Span>)
    requires k <= |cs| && Looped(cs, k, common, candidates, i, toReprocess) && i >= |candidates|
    ensures candidates == Kept(cs, common) && toReprocess == Leftovers(cs, common)
  {
    assert |candidates| == i + |cs| - k;
    assert cs[..k] == cs && cs[k..] == [];
  }

  /** Moving past an entry, or splicing it out, takes the loop one entry further. */
  lemma LoopStep(cs: seq<Span>, k: nat, common: set<string>, all: seq<Span>, i: nat, toReprocess: seq<Span>)
    requires k <= |cs| && Looped(cs, k, common, all, i, toReprocess) && i < |all|
    ensures k < |cs| && all[i] == cs[k]
    ensures IsDropped(cs[k], common) ==>
      Looped(cs, k + 1, common, all[..i] + all[i + 1..], i, toReprocess + Leftover(cs[k]))
    ensures !IsDropped(cs[k], common) ==> Looped(cs, k + 1, common, all, i + 1, toReprocess)
  {
    assert |all| == i + |cs| - k;
    assert cs[..k + 1][..k] == cs[..k];
    var kept, c := Kept(cs[..k], common), cs[k];
    SpliceAt(kept, cs, k);
    if IsDropped(c, common) {
      assert kept + [] == kept;
    } else {
      assert Leftovers(cs[..k], common) + [] == Leftovers(cs[..k], common);
    }
  }

  lemma SpliceAt(kept: seq<Span>, cs: seq<Span>, k: nat)
    requires k < |cs|
    ensures var all, i := kept + cs[k..], |kept|;
      all[i] == cs[k] && all[..i] + all[i + 1..] == kept + cs[k + 1..] && all == kept + [cs[k]] + cs[k + 1..]
  {
  }

  /** Position `p` is where `t` first occurs in `s`. */
  lemma {:induction false} IndexFromFinds(s: string, t: string, p: nat, k: nat)
    requires p <= k <= |s| && t <= s[k..]
    ensures p <= IndexFrom(s, t, p) <= k && t <= s[IndexFrom(s, t, p)..]
    ensures forall m :: p <= m < IndexFrom(s, t, p) ==> !(t <= s[m..])
    decreases k - p
  {
    if !(t <= s[p..]) {
      assert p < k;
      IndexFromFinds(s, t, p + 1, k);
    }
  }

  /** The rest of a match is a suffix of it. */
  lemma RemainderIsSuffix(raw: string)
    ensures Remainder(raw) == raw[|raw| - |Remainder(raw)|..]
  {
    var n := |FirstWord(raw)|;
    var pre := TrimStartDecomposes(raw[n..]);
    DropTwice(raw, n, |pre|);
  }

  lemma DropTwice(s: string, n: nat, m: nat)
    requires n + m <= |s|
    ensures s[n..][m..] == s[n + m..]
  {
  }

  /** The remainder occurs nowhere in the match before its own position. */
  predicate OccursOnlyAtEnd(raw: string) {
    NowhereBefore(raw, Remainder(raw), |raw| - |Remainder(raw)|)
  }

  predicate NowhereBefore(s: string, t: string, at: nat)
    requires at <= |s|
  {
    forall m :: 0 <= m < at ==> !(t <= s[m..])
  }

  /**
   The shortened candidate covers the text it carries exactly when the remainder does not
   occur earlier in the match.
   */
  lemma ShortenedIsExact(text: string, c: Span)
    requires Exact(text, c) && Remainder(c.raw) != []
    ensures Exact(text, Shortened(c)) == OccursOnlyAtEnd(c.raw)
  {
    var rest := Remainder(c.raw);
    RemainderIsSuffix(c.raw);
    var at := |c.raw| - |rest|;
    var s := Shortened(c);
    assert s == Span(rest, PERSON, c.start + IndexFrom(c.raw, rest, 0), c.end);
    SuffixIsExact(text, c, rest, at);
    assert Exact(text, s) == NowhereBefore(c.raw, rest, at);
  }

  lemma ShortenedIsInside(text: string, c: Span)
    requires Exact(text, c) && Remainder(c.raw) != []
    ensures c.start <= Shortened(c).start < Shortened(c).end == c.end
  {
    RemainderIsSuffix(c.raw);
    FirstAtSuffix(c.raw, Remainder(c.raw), |c.raw| - |Remainder(c.raw)|);
  }

  lemma SuffixIsExact(text: string, c: Span, rest: string, at: nat)
    requires Exact(text, c) && rest != [] && at == |c.raw| - |rest| && rest == c.raw[at..]
    ensures Exact(text, Span(rest, PERSON, c.start + IndexFrom(c.raw, rest, 0), c.end))
      == NowhereBefore(c.raw, rest, at)
  {
    FirstAtSuffix(c.raw, rest, at);
    ExactShift(text, c, rest, IndexFrom(c.raw, rest, 0));
  }

  lemma FirstAtSuffix(raw: string, rest: string, at: nat)
    requires at <= |raw| && rest == raw[at..]
    ensures IndexFrom(raw, rest, 0) <= at
    ensures (IndexFrom(raw, rest, 0) == at) == NowhereBefore(raw, rest, at)
  {
    IndexFromFinds(raw, rest, 0, at);
  }

  lemma ExactShift(text: string, c: Span, rest: string, k: nat)
    requires Exact(text, c) && k <= |c.raw| && rest != []
    requires |rest| <= |c.raw| && rest == c.raw[|c.raw| - |rest|..]
    ensures Exact(text, Span(rest, PERSON, c.start + k, c.end)) <==> k == |c.raw| - |rest|
  {
    assert text[c.start + k..c.end] == c.raw[k..];
  }

  lemma {:induction false} SplitFirst(s: string, q: nat)
    requires q <= |s| && NoSpace(s[..q])
    ensures Split(s, 0, q, _ => true) != []
    ensures Split(s, 0, q, _ => true)[0] == s[..q + WordEnd(s[q..])]
    decreases |s| - q
  {
    if q < |s| && !IsSpace(s[q]) {
      assert s[..q + 1] == s[..q] + [s[q]];
      assert s[q..][1..] == s[q + 1..];
      SplitFirst(s, q + 1);
    }
  }

  /** `The The The` is shortened to `The The` at its first position but keeps its end. */
  lemma RepeatedWordIsMisplaced()
    ensures var c := Span("The The The", PERSON, 0, 11);
      && Exact("The The The", c) && IsDropped(c, CommonWords())
      && Leftover(c) == [Span("The The", PERSON, 0, 11)]
      && !Exact("The The The", Span("The The", PERSON, 0, 11))
  {
    var raw, rest := "The The The", "The The";
    FirstWordOfThree();
    TheIsCommon();
    TwoNames();
    ThreeTimes(raw, rest);
    LeftoverAtStart(Span(raw, PERSON, 0, 11), rest);
  }

  lemma ThreeTimes(raw: string, rest: string)
    requires raw == "The The The" && rest == "The The"
    ensures |raw| == 11 && raw[0..11] == raw && rest <= raw[0..]
  {
    assert raw[..7] == rest;
  }

  lemma LeftoverAtStart(c: Span, rest: string)
    requires Remainder(c.raw) == rest && IsNamePhrase(rest) && rest <= c.raw[0..]
    ensures Leftover(c) == [Span(rest, PERSON, c.start, c.end)]
  {
  }

  lemma TheIsCommon()
    ensures "The" in CommonWords()
  {
    assert "The" in Determiners();
  }

  lemma FirstWordOfThree()
    ensures FirstWord("The The The") == "The" && Remainder("The The The") == "The The"
  {
    assert "The" + " " + "The The" == "The The The";
    FirstWordOf("The", " ", "The The");
  }

  /** The first word and the remainder of a word, one separator and more text. */
  lemma FirstWordOf(w: string, sep: string, rest: string)
    requires IsWord(w) && AllSpace(sep) && sep != [] && rest != [] && !IsSpace(rest[0])
    ensures FirstWord(w + sep + rest) == w && Remainder(w + sep + rest) == rest
  {
    var raw := w + sep + rest;
    assert raw == w + (sep + rest);
    WordEndOfWord(w);
    WordEndAppend(w, sep + rest);
    assert raw[0..] == raw && raw[..|w|] == w;
    SplitFirst(raw, 0);
    assert FirstWord(raw) == w;
    assert raw[|w|..] == sep + rest;
    TrimStartSkips(sep, rest);
  }

  lemma TwoNames()
    ensures IsNamePhrase("The The")
  {
    assert "The" + " " + "The" == "The The";
    TwoWords("The");
    TwoNamesPhrase("The The", "The");
  }

  lemma TwoNamesPhrase(s: string, w: string)
    requires IsName(w) && Trimmed(s) && Words(s) == [w, w]
    ensures IsNamePhrase(s)
  {
  }

  lemma TwoWords(w: string)
    requires IsWord(w)
    ensures Words(w + " " + w) == [w, w] && Trimmed(w + " " + w)
  {
    WordIsItsOnlyWord(w);
    WordsOfSpaces(" ");
    WordsAppend(w, " ");
    WordsAppend(w + " ", w);
  }

  // ---------------------------------------------------------------------------
  // Resolving overlaps
  // ---------------------------------------------------------------------------

  /** The sort order: by start, longer ones first. */
  predicate Before(a: Span, b: Span) {
    a.start < b.start || (a.start == b.start && a.end - a.start > b.end - b.start)
  }

  function InsertSpan(c: Span, sorted: seq<Span>): (r: seq<Span>)
    ensures multiset(r) == multiset(sorted) + multiset{c}
  {
    if sorted == [] || !Before(sorted[0], c) then [c] + sorted
    else
      assert sorted == [sorted[0]] + sorted[1..];
      [sorted[0]] + InsertSpan(c, sorted[1..])
  }

  /** The stable sort of `Array.prototype.sort`. */
  function SortSpans(cs: seq<Span>): (r: seq<Span>)
    ensures multiset(r) == multiset(cs)
  {
    if cs == [] then []
    else
      assert cs == [cs[0]] + cs[1..];
      InsertSpan(cs[0], SortSpans(cs[1..]))
  }

  ghost predicate SortedSpans(cs: seq<Span>) {
    forall i, j :: 0 <= i < j < |cs| ==> !Before(cs[j], cs[i])
  }

  lemma {:induction false} InsertSpanSorts(c: Span, sorted: seq<Span>)
    requires SortedSpans(sorted)
    ensures SortedSpans(InsertSpan(c, sorted))
  {
    var r := InsertSpan(c, sorted);
    if sorted != [] && Before(sorted[0], c) {
      InsertSpanSorts(c, sorted[1..]);
      var rest := InsertSpan(c, sorted[1..]);
      forall j | 0 <= j < |rest| ensures !Before(rest[j], sorted[0]) {
        assert rest[j] in multiset(rest);
        assert rest[j] == c || rest[j] in sorted[1..];
      }
    }
  }

  lemma {:induction false} SortSpansSorts(cs: seq<Span>)
    ensures SortedSpans(SortSpans(cs))
    ensures forall c :: c in SortSpans(cs) <==> c in cs
  {
    if cs != [] {
      SortSpansSorts(cs[1..]);
      InsertSpanSorts(cs[0], SortSpans(cs[1..]));
    }
    forall c ensures c in SortSpans(cs) <==> c in cs {
      assert c in multiset(SortSpans(cs)) <==> c in multiset(cs);
    }
  }

  predicate SamePlace(a: Span, b: Span) {
    a.start == b.start && a.end == b.end
  }

  /** The candidates at the same place as `c`, in order. */
  function AtPlace(cs: seq<Span>, c: Span): seq<Span> {
    if cs == [] then []
    else (if SamePlace(cs[0], c) then [cs[0]] else []) + AtPlace(cs[1..], c)
  }

  lemma {:induction false} InsertSpanIsStable(x: Span, sorted: seq<Span>, c: Span)
    ensures AtPlace(InsertSpan(x, sorted), c) == AtPlace([x] + sorted, c)
  {
    assert ([x] + sorted)[1..] == sorted;
    if sorted != [] && Before(sorted[0], x) {
      var rest := InsertSpan(x, sorted[1..]);
      InsertSpanIsStable(x, sorted[1..], c);
      assert ([sorted[0]] + rest)[1..] == rest;
      assert ([x] + sorted[1..])[1..] == sorted[1..];
    }
  }

  /** Sorting leaves candidates at one place in the order in which they were found. */
  lemma {:induction false} SortSpansIsStable(cs: seq<Span>, c: Span)
    ensures AtPlace(SortSpans(cs), c) == AtPlace(cs, c)
  {
    if cs != [] {
      SortSpansIsStable(cs[1..], c);
      InsertSpanIsStable(cs[0], SortSpans(cs[1..]), c);
      assert ([cs[0]] + SortSpans(cs[1..]))[1..] == SortSpans(cs[1..]);
    }
  }

  /** The spans that the greedy loop accepts once it has come to `cursor`. */
  function Accept(sorted: seq<Span>, cursor: int): seq<Span> {
    if sorted == [] then []
    else if sorted[0].start < cursor then Accept(sorted[1..], cursor)
    else [sorted[0]] + Accept(sorted[1..], sorted[0].end)
  }

  ghost predicate Overlap(a: Span, b: Span) {
    a.start < b.end && b.start < a.end
  }

  ghost predicate Disjoint(spans: seq<Span>) {
    forall i, j :: 0 <= i < j < |spans| ==> spans[i].end <= spans[j].start
  }

  ghost predicate WellFormed(cs: seq<Span>) {
    forall i :: 0 <= i < |cs| ==> 0 <= cs[i].start < cs[i].end
  }

  /** `c` was accepted, or an accepted span that does not come after it overlaps it. */
  ghost predicate Settled(kept: seq<Span>, c: Span) {
    c in kept || exists i :: Beats(kept, i, c)
  }

  ghost predicate Beats(kept: seq<Span>, i: int, c: Span) {
    0 <= i < |kept| && Overlap(kept[i], c) && !Before(c, kept[i])
  }

  lemma {:induction false} AcceptedFollow(sorted: seq<Span>, cursor: int)
    requires WellFormed(sorted) && SortedSpans(sorted)
    ensures Disjoint(Accept(sorted, cursor))
    ensures forall i :: 0 <= i < |Accept(sorted, cursor)| ==>
      Accept(sorted, cursor)[i] in sorted && Accept(sorted, cursor)[i].start >= cursor
  {
    if sorted != [] {
      var c, rest := sorted[0], sorted[1..];
      assert sorted == [c] + rest;
      AcceptedFollow(rest, if c.start < cursor then cursor else c.end);
    }
  }

  /** Below the cursor everything overlaps the last accepted span; above it, `Accept` decides. */
  lemma {:induction false} AllSettled(sorted: seq<Span>, cursor: int, c: Span)
    requires WellFormed(sorted) && SortedSpans(sorted) && c in sorted && c.start >= cursor
    ensures Settled(Accept(sorted, cursor), c)
  {
    var first, rest := sorted[0], sorted[1..];
    var kept := Accept(sorted, cursor);
    assert sorted == [first] + rest;
    if first.start < cursor {
      AllSettled(rest, cursor, c);
    } else if c != first {
      var i :| 0 <= i < |sorted| && sorted[i] == c;
      if c.start >= first.end {
        AllSettled(rest, first.end, c);
        SettledCons(first, Accept(rest, first.end), c);
      } else {
        assert Beats(kept, 0, c);
      }
    }
  }

  lemma SettledCons(first: Span, kept: seq<Span>, c: Span)
    requires Settled(kept, c)
    ensures Settled([first] + kept, c)
  {
    if c !in kept {
      var i :| Beats(kept, i, c);
      assert Beats([first] + kept, i + 1, c);
    }
  }

  /** The greedy loop over the sorted candidates. */
  method ResolveOverlaps(candidates: seq<Span>) returns (result: seq<Span>)
    ensures result == Accept(SortSpans(candidates), 0)
  {
    var sorted := SortSpans(candidates);
    result := [];
    var cursor := 0;
    for i := 0 to |sorted|
      invariant result + Accept(sorted[i..], cursor) == Accept(sorted, 0)
    {
      var c := sorted[i];
      assert sorted[i..][0] == c && sorted[i..][1..] == sorted[i + 1..];
      if c.start < cursor {
        continue;
      }
      result := result + [c];
      cursor := c.end;
    }
  }

  /**
   For well-formed candidates the result is ordered and disjoint, consists of candidates,
   and is maximal: a candidate that is left out overlaps a kept one that does not come after
   it in the order by start and then by length.
   */
  lemma ResolutionIsMaximal(candidates: seq<Span>)
    requires WellFormed(candidates)
    ensures var result := Accept(SortSpans(candidates), 0);
      && Disjoint(result)
      && (forall c :: c in result ==> c in candidates)
      && (forall c :: c in candidates ==> Settled(result, c))
  {
    var sorted := SortSpans(candidates);
    SortSpansSorts(candidates);
    assert WellFormed(sorted) by {
      forall i | 0 <= i < |sorted| ensures 0 <= sorted[i].start < sorted[i].end {
        assert sorted[i] in candidates;
      }
    }
    AcceptedFollow(sorted, 0);
    forall c | c in candidates ensures Settled(Accept(sorted, 0), c) {
      assert c in sorted;
      AllSettled(sorted, 0, c);
    }
  }

  /** Among the candidates that start where a kept span starts, the kept one is longest. */
  lemma KeptIsLongestAtStart(candidates: seq<Span>, kept: Span, c: Span)
    requires WellFormed(candidates)
    requires kept in Accept(SortSpans(candidates), 0) && c in candidates && c.start == kept.start
    ensures c.end <= kept.end
  {
    var result := Accept(SortSpans(candidates), 0);
    ResolutionIsMaximal(candidates);
    assert Settled(result, c);
    var k :| 0 <= k < |result| && result[k] == kept;
    assert kept in candidates;
    if c in result {
      var m :| 0 <= m < |result| && result[m] == c;
      assert result[m] in candidates;
      SameStartSameSpan(result, k, m);
    } else {
      var m :| Beats(result, m, c);
      assert result[m] in candidates;
      OverlapsAtStart(result, k, m, c);
    }
  }

  lemma SameStartSameSpan(result: seq<Span>, k: int, m: int)
    requires Disjoint(result) && 0 <= k < |result| && 0 <= m < |result|
    requires result[k].start == result[m].start && result[k].start < result[k].end && result[m].start < result[m].end
    ensures k == m
  {
  }

  lemma OverlapsAtStart(result: seq<Span>, k: int, m: int, c: Span)
    requires Disjoint(result) && 0 <= k < |result| && Beats(result, m, c) && c.start == result[k].start
    requires result[k].start < result[k].end && result[m].start < result[m].end
    ensures k == m
  {
  }

  /** Of several candidates at one place the first one found is kept. */
  lemma FirstFoundWins(candidates: seq<Span>, kept: Span)
    requires WellFormed(candidates) && kept in Accept(SortSpans(candidates), 0)
    ensures AtPlace(candidates, kept) != [] && AtPlace(candidates, kept)[0] == kept
  {
    var sorted := SortSpans(candidates);
    SortSpansSorts(candidates);
    SortSpansIsStable(candidates, kept);
    assert WellFormed(sorted) by {
      forall i | 0 <= i < |sorted| ensures 0 <= sorted[i].start < sorted[i].end {
        assert sorted[i] in candidates;
      }
    }
    AcceptedIsFirst(sorted, 0, kept);
  }

  lemma {:induction false} AcceptedIsFirst(sorted: seq<Span>, cursor: int, kept: Span)
    requires WellFormed(sorted) && SortedSpans(sorted) && kept in Accept(sorted, cursor)
    ensures AtPlace(sorted, kept) != [] && AtPlace(sorted, kept)[0] == kept
  {
    var first, rest := sorted[0], sorted[1..];
    if first.start < cursor {
      AcceptedFollow(rest, cursor);
      AcceptedIsFirst(rest, cursor, kept);
    } else if kept != first {
      AcceptedFollow(rest, first.end);
      AcceptedIsFirst(rest, first.end, kept);
    }
  }

  // ---------------------------------------------------------------------------
  // When the longest wins
  // ---------------------------------------------------------------------------

  function Length(c: Span): int {
    c.end - c.start
  }

  /** Of two overlapping candidates the earlier one is never shorter. */
  ghost predicate EarlierNeverShorter(cs: seq<Span>) {
    forall a, b :: a in cs && b in cs && a.start < b.start && Overlap(a, b) ==> Length(a) >= Length(b)
  }

  ghost predicate Outlasts(kept: seq<Span>, i: int, c: Span) {
    0 <= i < |kept| && Overlap(kept[i], c) && Length(kept[i]) >= Length(c)
  }

  ghost predicate IsOutlasted(kept: seq<Span>, c: Span) {
    exists i :: Outlasts(kept, i, c)
  }

  /** Every candidate is kept or overlaps a kept one that is at least as long. */
  ghost predicate LongestWins(cs: seq<Span>) {
    forall c :: c in cs ==> IsOutlasted(Accept(SortSpans(cs), 0), c)
  }

  lemma LongestWinsIfEarlierLonger(cs: seq<Span>)
    requires WellFormed(cs) && EarlierNeverShorter(cs)
    ensures LongestWins(cs)
  {
    var kept := Accept(SortSpans(cs), 0);
    ResolutionIsMaximal(cs);
    forall c | c in cs ensures IsOutlasted(kept, c) {
      assert Settled(kept, c);
      if c in kept {
        var i :| 0 <= i < |kept| && kept[i] == c;
        assert Outlasts(kept, i, c);
      } else {
        var i :| Beats(kept, i, c);
        assert kept[i] in cs;
        assert Outlasts(kept, i, c);
      }
    }
  }

  ghost predicate IsPart(part: seq<Span>, cs: seq<Span>) {
    forall c :: c in part ==> c in cs
  }

  /**
   The longest wins among the candidates and among every part of them exactly when the earlier of two
   overlapping candidates is never shorter.
   */
  lemma LongestWinsExactly(cs: seq<Span>)
    requires WellFormed(cs)
    ensures EarlierNeverShorter(cs) <==> forall part :: IsPart(part, cs) ==> LongestWins(part)
  {
    if EarlierNeverShorter(cs) {
      forall part | IsPart(part, cs) ensures LongestWins(part) {
        assert forall i :: 0 <= i < |part| ==> part[i] in cs;
        LongestWinsIfEarlierLonger(part);
      }
    }
    if forall part :: IsPart(part, cs) ==> LongestWins(part) {
      forall a, b | a in cs && b in cs && a.start < b.start && Overlap(a, b) ensures Length(a) >= Length(b) {
        assert IsPart([b, a], cs);
        EarlierOfTwoIsKept(a, b);
        assert b in [b, a] && IsOutlasted([a], b);
      }
    }
  }

  /** Of two overlapping candidates the earlier one is kept alone, however long the other is. */
  lemma EarlierOfTwoIsKept(a: Span, b: Span)
    requires 0 <= a.start < b.start && Overlap(a, b)
    ensures Accept(SortSpans([b, a]), 0) == [a]
  {
    assert SortSpans([a]) == InsertSpan(a, []) == [a];
    assert [b, a][1..] == [a];
    assert InsertSpan(b, [a]) == [a] + InsertSpan(b, []);
    assert SortSpans([b, a]) == [a, b];
    assert Accept([a, b], 0) == [a] + Accept([b], a.end);
    assert Accept([b], a.end) == Accept([], a.end);
  }

  // ---------------------------------------------------------------------------
  // The whole detector
  // ---------------------------------------------------------------------------

  /** The spans detected from the raw matches of the patterns, in pattern order. */
  function Detected(matches: seq<Span>, common: set<string>): seq<Span> {
    Accept(SortSpans(Kept(matches, common) + Leftovers(matches, common)), 0)
  }

  /** The match is dropped and comes back without its first word. */
  predicate ComesBack(c: Span, common: set<string>) {
    IsDropped(c, common) && IsNamePhrase(Remainder(c.raw))
  }

  /** Every match that comes back and is detected ends in the only occurrence of its remainder. */
  ghost predicate RestsAreLast(matches: seq<Span>, spans: seq<Span>, common: set<string>) {
    forall c :: c in matches && ComesBack(c, common) && Shortened(c) in spans ==> OccursOnlyAtEnd(c.raw)
  }

  method DetectPiiSpans(ghost text: string, matches: seq<Span>) returns (spans: seq<Span>)
    ensures spans == Detected(matches, CommonWords())
    ensures AllExact(text, matches) ==>
      Disjoint(spans) && (AllExact(text, spans) <==> RestsAreLast(matches, spans, CommonWords()))
  {
    var candidates := TrimCommonWords(matches, CommonWords());
    spans := ResolveOverlaps(candidates);
    if AllExact(text, matches) {
      DetectionIsExact(text, matches, CommonWords());
    }
  }

  lemma {:induction false} KeptMembers(cs: seq<Span>, common: set<string>, x: Span)
    ensures x in Kept(cs, common) <==> x in cs && !IsDropped(x, common)
  {
    if cs != [] {
      var front, last := cs[..|cs| - 1], cs[|cs| - 1];
      KeptMembers(front, common, x);
      assert cs == front + [last];
    }
  }

  ghost predicate IsLeftover(cs: seq<Span>, common: set<string>, c: Span, x: Span) {
    c in cs && IsDropped(c, common) && x in Leftover(c)
  }

  lemma {:induction false} LeftoverMembers(cs: seq<Span>, common: set<string>, x: Span)
    ensures x in Leftovers(cs, common) <==> exists c :: IsLeftover(cs, common, c, x)
  {
    if cs != [] {
      var front, last := cs[..|cs| - 1], cs[|cs| - 1];
      LeftoverMembers(front, common, x);
      assert cs == front + [last];
      if x in Leftovers(front, common) {
        var c :| IsLeftover(front, common, c, x);
        assert IsLeftover(cs, common, c, x);
      } else if x in Leftovers(cs, common) {
        assert IsLeftover(cs, common, last, x);
      }
      if c :| IsLeftover(cs, common, c, x) {
        assert c == last || IsLeftover(front, common, c, x);
      }
    }
  }

  /** A candidate is an exact match, or one that came back, and then it is exact if its remainder comes last. */
  lemma CandidateOrigin(text: string, matches: seq<Span>, common: set<string>, x: Span)
    requires AllExact(text, matches)
    requires x in Kept(matches, common) + Leftovers(matches, common)
    ensures 0 <= x.start < x.end
    ensures x !in matches ==> exists c :: c in matches && ComesBack(c, common) && x == Shortened(c)
    ensures Exact(text, x) ||
      exists c :: c in matches && ComesBack(c, common) && x == Shortened(c) && !OccursOnlyAtEnd(c.raw)
  {
    KeptMembers(matches, common, x);
    LeftoverMembers(matches, common, x);
    if x in Leftovers(matches, common) {
      var c :| IsLeftover(matches, common, c, x);
      PhraseIsNotEmpty(Remainder(c.raw));
      ShortenedIsExact(text, c);
      ShortenedIsInside(text, c);
    }
  }

  lemma PhraseIsNotEmpty(s: string)
    requires IsNamePhrase(s)
    ensures s != []
  {
    assert Words("") == [];
  }

  /** A condition on the matches alone: every match that comes back ends in the only occurrence of its remainder. */
  lemma RestsLastIsEnough(text: string, matches: seq<Span>, common: set<string>)
    requires AllExact(text, matches)
    requires forall c :: c in matches && ComesBack(c, common) ==> OccursOnlyAtEnd(c.raw)
    ensures AllExact(text, Detected(matches, common)) && Disjoint(Detected(matches, common))
  {
    DetectionIsExact(text, matches, common);
  }

  /**
   From exact matches the detected spans are ordered and disjoint, and they are exact if and only if
   the matches that come back shortened and are kept end in the only occurrence of their remainder.
   */
  lemma DetectionIsExact(text: string, matches: seq<Span>, common: set<string>)
    requires AllExact(text, matches)
    ensures Disjoint(Detected(matches, common))
    ensures AllExact(text, Detected(matches, common)) <==> RestsAreLast(matches, Detected(matches, common), common)
  {
    var spans := Detected(matches, common);
    var candidates := Kept(matches, common) + Leftovers(matches, common);
    forall i | 0 <= i < |candidates| ensures 0 <= candidates[i].start < candidates[i].end {
      CandidateOrigin(text, matches, common, candidates[i]);
    }
    ResolutionIsMaximal(candidates);
    if RestsAreLast(matches, spans, common) {
      forall i | 0 <= i < |spans| ensures Exact(text, spans[i]) {
        assert spans[i] in candidates;
        CandidateOrigin(text, matches, common, spans[i]);
      }
    }
    if AllExact(text, spans) {
      forall c | c in matches && ComesBack(c, common) && Shortened(c) in spans ensures OccursOnlyAtEnd(c.raw) {
        PhraseIsNotEmpty(Remainder(c.raw));
        ShortenedIsExact(text, c);
      }
    }
  }

  /** A name runs into a longer e-mail address: the address is not detected, although it is longer. */
  lemma LongestMayLose() returns (text: string, email: Span, name: Span)
    ensures text == "Virginia Bob@example.com"
    ensures email == Span("Bob@example.com", EMAIL, 9, 24) && name == Span("Virginia Bob", PERSON, 0, 12)
    ensures AllExact(text, [email, name])
    ensures Detected([email, name], CommonWords()) == [name]
    ensures Length(email) > Length(name) && !LongestWins([email, name])
  {
    text := "Virginia Bob@example.com";
    email, name := Span("Bob@example.com", EMAIL, 9, 24), Span("Virginia Bob", PERSON, 0, 12);
    EmailAndName(text, email.raw, name.raw);
    ShorterNameWins(email, name);
  }

  lemma EmailAndName(text: string, email: string, name: string)
    requires text == "Virginia Bob@example.com" && email == "Bob@example.com" && name == "Virginia Bob"
    ensures |text| == 24 && text[9..24] == email && text[0..12] == name
  {
    CutsOut(text, 9, 24, email);
    CutsOut(text, 0, 12, name);
  }

  lemma ShorterNameWins(email: Span, name: Span)
    requires email.piiType == EMAIL && name.raw == "Virginia Bob"
    requires 0 <= name.start < email.start && Overlap(name, email) && Length(name) < Length(email)
    ensures Detected([email, name], CommonWords()) == [name] && !LongestWins([email, name])
  {
    VirginiaIsNoCommonWord();
    NameIsNotDropped(name, CommonWords());
    TwoDetected(name, email, CommonWords());
    NotOutlasted(name, email);
  }

  lemma CutsOut(text: string, from: nat, to: nat, raw: string)
    requires from <= to <= |text| && |raw| == to - from
    requires forall i :: 0 <= i < |raw| ==> raw[i] == text[from + i]
    ensures text[from..to] == raw
  {
  }

  lemma TwoDetected(a: Span, b: Span, common: set<string>)
    requires !IsDropped(a, common) && !IsDropped(b, common)
    requires 0 <= a.start < b.start && Overlap(a, b)
    ensures Detected([b, a], common) == [a] == Accept(SortSpans([b, a]), 0)
  {
    NothingDropped([b, a], common);
    assert [b, a] + [] == [b, a];
    EarlierOfTwoIsKept(a, b);
  }

  lemma NotOutlasted(kept: Span, c: Span)
    requires Length(kept) < Length(c) && Accept(SortSpans([c, kept]), 0) == [kept]
    ensures !LongestWins([c, kept])
  {
    assert c in [c, kept] && !IsOutlasted([kept], c);
  }

  lemma NameIsNotDropped(name: Span, common: set<string>)
    requires name.raw == "Virginia Bob" && "Virginia" !in common
    ensures !IsDropped(name, common)
  {
    assert "Virginia" + " " + "Bob" == "Virginia Bob";
    FirstWordOf("Virginia", " ", "Bob");
  }

  lemma VirginiaIsNoCommonWord()
    ensures "Virginia" !in CommonWords()
  {
    DeterminersAreShort("Virginia");
    ConnectivesAreShort("Virginia");
    VerbsAreShort("Virginia");
    SalutationsAreShort("Virginia");
  }

  lemma DeterminersAreShort(w: string)
    ensures w in Determiners() ==> |w| <= 7
  {
  }

  lemma ConnectivesAreShort(w: string)
    ensures w in Connectives() ==> |w| <= 7
  {
  }

  lemma VerbsAreShort(w: string)
    ensures w in Verbs() ==> |w| <= 7
  {
  }

  lemma SalutationsAreShort(w: string)
    ensures w in Salutations() ==> |w| <= 7
  {
  }
}
