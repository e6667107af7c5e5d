/**
 The sentence-boundary, max-tokens chunker.

 `ChunkText` packs sentences greedily. It is proved to keep every word, to respect the
 ceiling and the sentence boundaries, and to use no more chunks than any other chunking
 that respects them.
 */
module Chunker {
  import opened Wrappers
  import opened Text
  import opened Sentences

  datatype TextChunk = TextChunk(text: string, tokenCount: nat)

  // ---------------------------------------------------------------------------
  // Token counting
  // ---------------------------------------------------------------------------

  function CountTokens(text: string): nat {
    var trimmed := Trim(text);
    if trimmed == [] then 0 else |Split(trimmed, 0, 0, _ => true)|
  }

  /** Counting the pieces of a trimmed text counts its words: no piece is empty. */
  lemma CountTokensCountsWords(text: string)
    ensures CountTokens(text) == |Words(text)|
  {
    var pre, post := TrimDecomposes(text);
    WordsTrim(text);
    var t := Trim(text);
    if t != [] {
      assert t[0..] == t;
      SplitTrimmedIsWords(t, 0, 0);
    }
  }

  // ---------------------------------------------------------------------------
  // Chunkings of a text
  // ---------------------------------------------------------------------------

  /** The positions in the word sequence at which the parts end. */
  ghost function Ends(parts: seq<seq<string>>): set<nat> {
    if parts == [] then {} else Ends(parts[..|parts| - 1]) + {|Flatten(parts)|}
  }

  /** The position in the word sequence at which sentence `i` starts. */
  ghost function Start(sentences: seq<seq<string>>, i: nat): nat
    requires i <= |sentences|
  {
    |Flatten(sentences[..i])|
  }

  /** Sentence `i` is kept in one part if it fits, and shares no part if it does not. */
  ghost predicate RespectsSentence(sentences: seq<seq<string>>, ends: set<nat>, maxTokens: nat, i: nat)
    requires i < |sentences|
  {
    var from, to := Start(sentences, i), Start(sentences, i + 1);
    if |sentences[i]| <= maxTokens then
      forall e :: e in ends ==> !(from < e < to)
    else
      (from == 0 || from in ends) && to in ends
  }

  /**
   An in-order division of all the words into parts of at most `maxTokens` words that
   respects every sentence.
   */
  ghost predicate IsChunking(sentences: seq<seq<string>>, parts: seq<seq<string>>, maxTokens: nat) {
    && Flatten(parts) == Flatten(sentences)
    && (forall j :: 0 <= j < |parts| ==> |parts[j]| <= maxTokens)
    && (forall i :: 0 <= i < |sentences| ==> RespectsSentence(sentences, Ends(parts), maxTokens, i))
  }

  lemma {:induction false} FlattenAppend(a: seq<seq<string>>, b: seq<string>)
    ensures Flatten(a + [b]) == Flatten(a) + b
    ensures Ends(a + [b]) == Ends(a) + {|Flatten(a)| + |b|}
  {
    assert (a + [b])[..|a|] == a;
  }

  lemma {:induction false} FlattenPrefix(parts: seq<seq<string>>, i: nat)
    requires i <= |parts|
    ensures |Flatten(parts[..i])| <= |Flatten(parts)|
    decreases |parts|
  {
    if i == |parts| {
      assert parts[..i] == parts;
    } else {
      FlattenPrefix(parts[..|parts| - 1], i);
      assert parts[..|parts| - 1][..i] == parts[..i];
    }
  }

  lemma StartStep(sentences: seq<seq<string>>, i: nat)
    requires i < |sentences|
    ensures Start(sentences, i + 1) == Start(sentences, i) + |sentences[i]|
    ensures Flatten(sentences[..i + 1]) == Flatten(sentences[..i]) + sentences[i]
    ensures Start(sentences, i + 1) <= |Flatten(sentences)|
  {
    assert sentences[..i + 1] == sentences[..i] + [sentences[i]];
    FlattenAppend(sentences[..i], sentences[i]);
    FlattenPrefix(sentences, i + 1);
  }

  // ---------------------------------------------------------------------------
  // Greedy stays ahead
  // ---------------------------------------------------------------------------

  /** The ends of a chunking that lie at or before position `y`. */
  ghost function EndsUpTo(ends: set<nat>, y: nat): set<nat> {
    set e | e in ends && e <= y
  }

  lemma {:induction false} EndsBounded(parts: seq<seq<string>>)
    ensures |Ends(parts)| <= |parts|
    ensures forall e :: e in Ends(parts) ==> e <= |Flatten(parts)|
    ensures parts != [] ==> |Flatten(parts)| in Ends(parts)
  {
    if parts != [] {
      EndsBounded(parts[..|parts| - 1]);
      FlattenPrefix(parts, |parts| - 1);
    }
  }

  /** A part that covers position `p` ends within `maxTokens` of it. */
  lemma {:induction false} EndAfter(parts: seq<seq<string>>, maxTokens: nat, p: nat) returns (e: nat)
    requires forall j :: 0 <= j < |parts| ==> |parts[j]| <= maxTokens
    requires p < |Flatten(parts)|
    ensures e in Ends(parts) && p < e <= p + maxTokens
  {
    var front := parts[..|parts| - 1];
    if p < |Flatten(front)| {
      e := EndAfter(front, maxTokens, p);
    } else {
      e := |Flatten(parts)|;
    }
  }

  lemma MoreEnds(ends: set<nat>, y: nat, e: nat, z: nat)
    requires e in ends && y < e <= z
    ensures |EndsUpTo(ends, z)| >= |EndsUpTo(ends, y)| + 1
  {
    SubsetSize(EndsUpTo(ends, y) + {e}, EndsUpTo(ends, z));
  }

  lemma {:induction false} SubsetSize(a: set<nat>, b: set<nat>)
    requires a <= b
    ensures |a| <= |b|
  {
    if a != {} {
      var x :| x in a;
      SubsetSize(a - {x}, b - {x});
    }
  }

  /** `m` parts were emitted up to position `y`, and no chunking has fewer ends up to there. */
  ghost predicate Ahead(sentences: seq<seq<string>>, maxTokens: nat, m: nat, y: nat) {
    forall other :: IsChunking(sentences, other, maxTokens) ==> |EndsUpTo(Ends(other), y)| >= m
  }

  /** Flushing a buffer that starts at `y` because sentence `i` does not fit keeps the lead. */
  lemma FlushKeepsLead(sentences: seq<seq<string>>, maxTokens: nat, m: nat, y: nat, i: nat)
    requires i < |sentences| && Ahead(sentences, maxTokens, m, y)
    requires y < Start(sentences, i) && Start(sentences, i + 1) - y > maxTokens
    ensures Ahead(sentences, maxTokens, m + 1, Start(sentences, i))
  {
    var x := Start(sentences, i);
    StartStep(sentences, i);
    forall other | IsChunking(sentences, other, maxTokens)
      ensures |EndsUpTo(Ends(other), x)| >= m + 1
    {
      var ends := Ends(other);
      assert RespectsSentence(sentences, ends, maxTokens, i);
      if |sentences[i]| <= maxTokens {
        var e := EndAfter(other, maxTokens, y);
        MoreEnds(ends, y, e, x);
      } else {
        MoreEnds(ends, y, x, x);
      }
    }
  }

  /** Emitting a full slice of the oversized sentence `i`, or its last one, keeps the lead. */
  lemma SliceKeepsLead(sentences: seq<seq<string>>, maxTokens: nat, m: nat, y: nat, i: nat, z: nat)
    requires i < |sentences| && |sentences[i]| > maxTokens && Ahead(sentences, maxTokens, m, y)
    requires Start(sentences, i) <= y < Start(sentences, i + 1)
    requires z == if y + maxTokens <= Start(sentences, i + 1) then y + maxTokens else Start(sentences, i + 1)
    ensures Ahead(sentences, maxTokens, m + 1, z)
  {
    var to := Start(sentences, i + 1);
    StartStep(sentences, i);
    forall other | IsChunking(sentences, other, maxTokens)
      ensures |EndsUpTo(Ends(other), z)| >= m + 1
    {
      var ends := Ends(other);
      assert RespectsSentence(sentences, ends, maxTokens, i);
      var e := EndAfter(other, maxTokens, y);
      if e <= to { MoreEnds(ends, y, e, z); } else { MoreEnds(ends, y, to, z); }
    }
  }

  /** Flushing what is left at the very end needs no more parts than any chunking has. */
  lemma LastFlushKeepsLead(sentences: seq<seq<string>>, maxTokens: nat, m: nat, y: nat)
    requires Ahead(sentences, maxTokens, m, y) && y < |Flatten(sentences)|
    ensures Ahead(sentences, maxTokens, m + 1, |Flatten(sentences)|)
  {
    var n := |Flatten(sentences)|;
    forall other | IsChunking(sentences, other, maxTokens)
      ensures |EndsUpTo(Ends(other), n)| >= m + 1
    {
      EndsBounded(other);
      MoreEnds(Ends(other), y, n, n);
    }
  }

  lemma AheadAtEndIsFewest(sentences: seq<seq<string>>, maxTokens: nat, m: nat)
    requires Ahead(sentences, maxTokens, m, |Flatten(sentences)|)
    ensures forall other :: IsChunking(sentences, other, maxTokens) ==> m <= |other|
  {
    var n := |Flatten(sentences)|;
    forall other | IsChunking(sentences, other, maxTokens)
      ensures m <= |other|
    {
      EndsBounded(other);
      SubsetSize(EndsUpTo(Ends(other), n), Ends(other));
    }
  }

  // ---------------------------------------------------------------------------
  // What the packing loop keeps
  // ---------------------------------------------------------------------------

  ghost predicate AreParts(parts: seq<seq<string>>, maxTokens: nat) {
    forall j :: 0 <= j < |parts| ==> 1 <= |parts[j]| <= maxTokens && AreWords(parts[j])
  }

  ghost predicate RespectsBefore(sentences: seq<seq<string>>, ends: set<nat>, maxTokens: nat, i: nat)
    requires i <= |sentences|
  {
    forall k :: 0 <= k < i ==> RespectsSentence(sentences, ends, maxTokens, k)
  }

  /** `parts` were emitted and `current` is buffered after the first `i` sentences. */
  ghost predicate Packed(sentences: seq<seq<string>>, maxTokens: nat,
                         parts: seq<seq<string>>, current: seq<string>, i: nat)
    requires i <= |sentences|
  {
    && Flatten(parts) + current == Flatten(sentences[..i])
    && |current| <= maxTokens && AreWords(current)
    && AreParts(parts, maxTokens)
    && Ahead(sentences, maxTokens, |parts|, |Flatten(parts)|)
    && RespectsBefore(sentences, Ends(parts), maxTokens, i)
  }

  /** The first `n` words of the oversized sentence `i` were emitted as well. */
  ghost predicate Sliced(sentences: seq<seq<string>>, maxTokens: nat,
                         parts: seq<seq<string>>, i: nat, n: nat)
    requires i < |sentences| && n <= |sentences[i]|
  {
    && Flatten(parts) == Flatten(sentences[..i]) + sentences[i][..n]
    && AreParts(parts, maxTokens)
    && Ahead(sentences, maxTokens, |parts|, |Flatten(parts)|)
    && RespectsBefore(sentences, Ends(parts), maxTokens, i)
    && (Start(sentences, i) == 0 || Start(sentences, i) in Ends(parts))
  }

  lemma {:induction false} StartMonotone(sentences: seq<seq<string>>, k: nat, i: nat)
    requires k <= i <= |sentences|
    ensures Start(sentences, k) <= Start(sentences, i)
  {
    FlattenPrefix(sentences[..i], k);
    assert sentences[..i][..k] == sentences[..k];
  }

  /** An end at or after the start of sentence `i` disturbs no earlier sentence. */
  lemma LaterEnd(sentences: seq<seq<string>>, ends: set<nat>, maxTokens: nat, i: nat, e: nat)
    requires i <= |sentences| && RespectsBefore(sentences, ends, maxTokens, i)
    requires e >= Start(sentences, i)
    ensures RespectsBefore(sentences, ends + {e}, maxTokens, i)
  {
    forall k | 0 <= k < i
      ensures RespectsSentence(sentences, ends + {e}, maxTokens, k)
    {
      assert RespectsSentence(sentences, ends, maxTokens, k);
      StartMonotone(sentences, k + 1, i);
    }
  }

  lemma PackedStart(sentences: seq<seq<string>>, maxTokens: nat)
    ensures Packed(sentences, maxTokens, [], [], 0)
  {
    assert sentences[..0] == [];
  }

  lemma PackedFlush(sentences: seq<seq<string>>, maxTokens: nat,
                    parts: seq<seq<string>>, current: seq<string>, i: nat)
    requires i < |sentences| && Packed(sentences, maxTokens, parts, current, i)
    requires current != [] && |current| + |sentences[i]| > maxTokens
    ensures Packed(sentences, maxTokens, parts + [current], [], i)
  {
    FlattenAppend(parts, current);
    StartStep(sentences, i);
    FlushKeepsLead(sentences, maxTokens, |parts|, |Flatten(parts)|, i);
    LaterEnd(sentences, Ends(parts), maxTokens, i, Start(sentences, i));
  }

  lemma PackedAccumulate(sentences: seq<seq<string>>, maxTokens: nat,
                         parts: seq<seq<string>>, current: seq<string>, i: nat)
    requires i < |sentences| && Packed(sentences, maxTokens, parts, current, i)
    requires |current| + |sentences[i]| <= maxTokens && AreWords(sentences[i])
    ensures Packed(sentences, maxTokens, parts, current + sentences[i], i + 1)
  {
    StartStep(sentences, i);
    EndsBounded(parts);
    assert Flatten(parts) + (current + sentences[i]) == Flatten(parts) + current + sentences[i];
    assert RespectsSentence(sentences, Ends(parts), maxTokens, i);
  }

  lemma SlicedStart(sentences: seq<seq<string>>, maxTokens: nat, parts: seq<seq<string>>, i: nat)
    requires i < |sentences| && Packed(sentences, maxTokens, parts, [], i)
    ensures Sliced(sentences, maxTokens, parts, i, 0)
  {
    EndsBounded(parts);
    assert Flatten(parts) + [] == Flatten(parts);
    assert Flatten(sentences[..i]) + sentences[i][..0] == Flatten(sentences[..i]);
  }

  lemma SlicedStep(sentences: seq<seq<string>>, maxTokens: nat,
                   parts: seq<seq<string>>, i: nat, n: nat, m: nat)
    requires 0 < maxTokens && i < |sentences| && n < |sentences[i]| && |sentences[i]| > maxTokens
    requires Sliced(sentences, maxTokens, parts, i, n) && AreWords(sentences[i])
    requires m == if n + maxTokens <= |sentences[i]| then n + maxTokens else |sentences[i]|
    ensures Sliced(sentences, maxTokens, parts + [sentences[i][n..m]], i, m)
  {
    var slice := sentences[i][n..m];
    var to := Start(sentences, i) + m;
    SlicedFlatten(sentences, parts, i, n, m);
    SliceKeepsLead(sentences, maxTokens, |parts|, |Flatten(parts)|, i, to);
    LaterEnd(sentences, Ends(parts), maxTokens, i, to);
    PartsAppend(parts, slice, maxTokens);
  }

  lemma SlicedFlatten(sentences: seq<seq<string>>, parts: seq<seq<string>>, i: nat, n: nat, m: nat)
    requires i < |sentences| && n <= m <= |sentences[i]|
    requires Flatten(parts) == Flatten(sentences[..i]) + sentences[i][..n]
    ensures Flatten(parts + [sentences[i][n..m]]) == Flatten(sentences[..i]) + sentences[i][..m]
    ensures |Flatten(parts)| == Start(sentences, i) + n
    ensures Ends(parts + [sentences[i][n..m]]) == Ends(parts) + {Start(sentences, i) + m}
    ensures Start(sentences, i + 1) == Start(sentences, i) + |sentences[i]|
  {
    StartStep(sentences, i);
    var before, slice := Flatten(sentences[..i]), sentences[i][n..m];
    var all, ends := Flatten(parts + [slice]), Ends(parts + [slice]);
    FlattenAppend(parts, slice);
    assert all == before + sentences[i][..n] + slice;
    PrefixSlice(before, sentences[i], n, m);
    assert ends == Ends(parts) + {|before| + n + (m - n)};
  }

  lemma PartsAppend(parts: seq<seq<string>>, part: seq<string>, maxTokens: nat)
    requires AreParts(parts, maxTokens) && 1 <= |part| <= maxTokens && AreWords(part)
    ensures AreParts(parts + [part], maxTokens)
  {
  }

  lemma PrefixSlice(before: seq<string>, sentence: seq<string>, n: nat, m: nat)
    requires n <= m <= |sentence|
    ensures before + sentence[..n] + sentence[n..m] == before + sentence[..m]
  {
  }

  lemma SlicedEnd(sentences: seq<seq<string>>, maxTokens: nat, parts: seq<seq<string>>, i: nat)
    requires i < |sentences| && |sentences[i]| > maxTokens
    requires Sliced(sentences, maxTokens, parts, i, |sentences[i]|)
    ensures Packed(sentences, maxTokens, parts, [], i + 1)
  {
    StartStep(sentences, i);
    EndsBounded(parts);
    assert sentences[i][..|sentences[i]|] == sentences[i];
    assert Flatten(parts) + [] == Flatten(parts);
    if parts != [] {
      assert RespectsSentence(sentences, Ends(parts), maxTokens, i);
    }
  }

  lemma PackedFlushLast(sentences: seq<seq<string>>, maxTokens: nat,
                        parts: seq<seq<string>>, current: seq<string>)
    requires Packed(sentences, maxTokens, parts, current, |sentences|) && current != []
    ensures Packed(sentences, maxTokens, parts + [current], [], |sentences|)
  {
    assert sentences[..|sentences|] == sentences;
    FlattenAppend(parts, current);
    LastFlushKeepsLead(sentences, maxTokens, |parts|, |Flatten(parts)|);
    LaterEnd(sentences, Ends(parts), maxTokens, |sentences|, |Flatten(sentences)|);
  }

  // ---------------------------------------------------------------------------
  // The chunker
  // ---------------------------------------------------------------------------

  function MakeChunk(words: seq<string>): TextChunk {
    TextChunk(Join(words), |words|)
  }

  /** The words of one sentence as the loop computes them. */
  function SentenceTokens(sentence: string): seq<string> {
    NonEmpty(Split(Trim(sentence), 0, 0, _ => true))
  }

  function NonEmpty(pieces: seq<string>): seq<string> {
    if pieces == [] then []
    else (if pieces[0] == [] then [] else [pieces[0]]) + NonEmpty(pieces[1..])
  }

  lemma SentenceTokensAreWords(sentence: string)
    ensures SentenceTokens(sentence) == Words(sentence)
    ensures AreWords(Words(sentence))
  {
    var pre, post := TrimDecomposes(sentence);
    var t := Trim(sentence);
    WordsTrim(sentence);
    WordsAreWords(t);
    if t == [] {
      assert NonEmpty([t]) == NonEmpty([t][1..]);
    } else {
      SplitTrimmedIsWords(t, 0, 0);
      assert t[0..] == t;
      NonEmptyWords(Words(t));
    }
  }

  lemma {:induction false} NonEmptyWords(ws: seq<string>)
    requires AreWords(ws)
    ensures NonEmpty(ws) == ws
  {
    if ws != [] { NonEmptyWords(ws[1..]); }
  }

  function TextsOf(chunks: seq<TextChunk>): (texts: seq<string>)
    ensures |texts| == |chunks|
    ensures forall j :: 0 <= j < |texts| ==> texts[j] == chunks[j].text
  {
    seq(|chunks|, j requires 0 <= j < |chunks| => chunks[j].text)
  }

  /** A chunk is one to `maxTokens` words joined by single spaces, and its count is right. */
  ghost predicate GoodChunk(c: TextChunk, maxTokens: int) {
    && 1 <= c.tokenCount <= maxTokens
    && c.tokenCount == CountTokens(c.text)
    && c.text == Join(Words(c.text)) && SingleSpaced(c.text)
  }

  lemma MakeChunkIsGood(words: seq<string>, maxTokens: nat)
    requires AreWords(words) && 1 <= |words| <= maxTokens
    ensures GoodChunk(MakeChunk(words), maxTokens)
    ensures Words(MakeChunk(words).text) == words
  {
    WordsJoin(words);
    JoinIsSingleSpaced(words);
    CountTokensCountsWords(Join(words));
  }

  ghost predicate ChunksOf(chunks: seq<TextChunk>, parts: seq<seq<string>>) {
    && |chunks| == |parts|
    && forall j :: 0 <= j < |chunks| ==> chunks[j] == MakeChunk(parts[j])
  }

  lemma ChunksOfAppend(chunks: seq<TextChunk>, parts: seq<seq<string>>, part: seq<string>)
    requires ChunksOf(chunks, parts)
    ensures ChunksOf(chunks + [MakeChunk(part)], parts + [part])
  {
  }

  /** The chunks form a chunking of the text's sentences, and none is shorter. */
  ghost predicate IsBestChunking(text: string, maxTokens: nat, chunks: seq<TextChunk>) {
    && IsSentences(text, SentenceWords(text))
    && WordsOfAll(TextsOf(chunks)) == Words(text)
    && (forall c :: c in chunks ==> GoodChunk(c, maxTokens))
    && IsChunking(SentenceWords(text), WordsOfEach(TextsOf(chunks)), maxTokens)
    && (forall other :: IsChunking(SentenceWords(text), other, maxTokens) ==> |chunks| <= |other|)
  }

  lemma PackedIsBest(text: string, maxTokens: nat, chunks: seq<TextChunk>, parts: seq<seq<string>>)
    requires Packed(SentenceWords(text), maxTokens, parts, [], |SentenceWords(text)|)
    requires ChunksOf(chunks, parts)
    ensures IsBestChunking(text, maxTokens, chunks)
  {
    var sentences := SentenceWords(text);
    assert sentences[..|sentences|] == sentences;
    assert Flatten(parts) + [] == Flatten(parts);
    forall j | 0 <= j < |chunks|
      ensures Words(chunks[j].text) == parts[j] && GoodChunk(chunks[j], maxTokens)
    {
      MakeChunkIsGood(parts[j], maxTokens);
    }
    assert WordsOfEach(TextsOf(chunks)) == parts;
    FlattenWordsOfEach(TextsOf(chunks));
    SplitterFindsSentences(text);
    SentencesKeepWords(text);
    AheadAtEndIsFewest(sentences, maxTokens, |parts|);
  }

  lemma BlankIsBest(text: string, maxTokens: nat)
    requires Trim(text) == []
    ensures IsBestChunking(text, maxTokens, [])
  {
    assert SplitIntoSentences(Trim(text)) == [] by { assert TrimAll([[]]) == TrimAll([[]][1..]); }
    PackedStart(SentenceWords(text), maxTokens);
    PackedIsBest(text, maxTokens, [], []);
  }

  /** Emits the oversized sentence `i` in slices of `maxTokens` words. */
  method EmitSlices(ghost sentences: seq<seq<string>>, maxTokens: int, chunks0: seq<TextChunk>,
                    ghost parts0: seq<seq<string>>, ghost i: nat, sentenceWords: seq<string>)
    returns (chunks: seq<TextChunk>, ghost parts: seq<seq<string>>)
    requires 0 < maxTokens < |sentenceWords| && AreWords(sentenceWords)
    requires i < |sentences| && sentences[i] == sentenceWords
    requires Packed(sentences, maxTokens, parts0, [], i) && ChunksOf(chunks0, parts0)
    ensures Packed(sentences, maxTokens, parts, [], i + 1) && ChunksOf(chunks, parts)
  {
    chunks, parts := chunks0, parts0;
    SlicedStart(sentences, maxTokens, parts, i);
    var n := 0;
    while n < |sentenceWords|
      invariant 0 <= n
      invariant Sliced(sentences, maxTokens, parts, i, if n < |sentenceWords| then n else |sentenceWords|)
      invariant ChunksOf(chunks, parts)
    {
      var m := if n + maxTokens <= |sentenceWords| then n + maxTokens else |sentenceWords|;
      var slice := sentenceWords[n..m];
      SlicedStep(sentences, maxTokens, parts, i, n, m);
      ChunksOfAppend(chunks, parts, slice);
      parts := parts + [slice];
      chunks := chunks + [MakeChunk(slice)];
      n := n + maxTokens;
    }
    SlicedEnd(sentences, maxTokens, parts, i);
  }

  method ChunkText(text: string, maxTokens: int) returns (r: Result<seq<TextChunk>, string>)
    ensures r.Failure? <==> maxTokens < 1
    ensures r.Success? ==> IsBestChunking(text, maxTokens, r.value)
  {
    if maxTokens < 1 {
      return Failure("chunkText: maxTokens must be a positive integer");
    }
    var trimmed := Trim(text);
    if trimmed == [] {
      BlankIsBest(text, maxTokens);
      return Success([]);
    }
    var sentences := SplitIntoSentences(trimmed);
    var chunks: seq<TextChunk> := [];
    var currentWords: seq<string> := [];
    ghost var all := SentenceWords(text);
    ghost var parts: seq<seq<string>> := [];
    PackedStart(all, maxTokens);
    for i := 0 to |sentences|
      invariant Packed(all, maxTokens, parts, currentWords, i)
      invariant ChunksOf(chunks, parts)
    {
      var sentenceWords := SentenceTokens(sentences[i]);
      SentenceTokensAreWords(sentences[i]);
      assert all[i] == sentenceWords;
      if |sentenceWords| == 0 {
        PackedAccumulate(all, maxTokens, parts, currentWords, i);
        assert currentWords + sentenceWords == currentWords;
        continue;
      }
      if |currentWords| > 0 && |currentWords| + |sentenceWords| > maxTokens {
        PackedFlush(all, maxTokens, parts, currentWords, i);
        ChunksOfAppend(chunks, parts, currentWords);
        parts := parts + [currentWords];
        chunks := chunks + [MakeChunk(currentWords)];
        currentWords := [];
      }
      if |sentenceWords| > maxTokens {
        if |currentWords| > 0 {
          assert false;  // the flush above has already emptied the buffer
        }
        chunks, parts := EmitSlices(all, maxTokens, chunks, parts, i, sentenceWords);
      } else {
        PackedAccumulate(all, maxTokens, parts, currentWords, i);
        currentWords := currentWords + sentenceWords;
      }
    }
    if |currentWords| > 0 {
      PackedFlushLast(all, maxTokens, parts, currentWords);
      ChunksOfAppend(chunks, parts, currentWords);
      parts := parts + [currentWords];
      chunks := chunks + [MakeChunk(currentWords)];
      currentWords := [];
    }
    PackedIsBest(text, maxTokens, chunks, parts);
    return Success(chunks);
  }
}
