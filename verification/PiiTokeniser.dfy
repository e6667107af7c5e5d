/**
 Replacing PII spans by tokens, and the identity store that maps tokens back.
 */
module PiiTokeniser {
  import opened Wrappers
  import opened Text
  import opened PiiSpans

  // ---------------------------------------------------------------------------
  // Tokens
  // ---------------------------------------------------------------------------

  function TypeName(t: PiiType): string {
    match t
    case PERSON => "PERSON"
    case EMAIL => "EMAIL"
    case PHONE => "PHONE"
    case ORG => "ORG"
    case LOC => "LOC"
    case GENERIC => "GENERIC"
  }

  /** The tenant's keyed digest in hexadecimal, and the lower-casing applied before it. */
  datatype Deriver = Deriver(mac: string -> string, lower: string -> string)

  predicate IsHex(s: string) {
    forall i :: 0 <= i < |s| ==> '0' <= s[i] <= '9' || 'a' <= s[i] <= 'f'
  }

  /** The digest is hexadecimal and at least eight digits long. */
  ghost predicate HexDigest(d: Deriver) {
    forall x :: |d.mac(x)| >= 8 && IsHex(d.mac(x))
  }

  function Canonicalise(d: Deriver, raw: string): string {
    Trim(d.lower(raw))
  }

  function FirstEight(s: string): string {
    if |s| <= 8 then s else s[..8]
  }

  function DeriveToken(d: Deriver, raw: string, piiType: PiiType): string {
    TypeName(piiType) + "_" + FirstEight(d.mac(Canonicalise(d, raw)))
  }

  /** Two values share a token exactly when type and the first eight digits of their digests agree. */
  lemma TokenSharedExactly(d: Deriver, a: string, s: PiiType, b: string, t: PiiType)
    requires HexDigest(d)
    ensures DeriveToken(d, a, s) == DeriveToken(d, b, t) <==>
      s == t && d.mac(Trim(d.lower(a)))[..8] == d.mac(Trim(d.lower(b)))[..8]
  {
    var v, w := Canonicalise(d, a), Canonicalise(d, b);
    assert |d.mac(v)| >= 8 && |d.mac(w)| >= 8;
    TokenParts(TypeName(s), FirstEight(d.mac(v)), TypeName(t), FirstEight(d.mac(w)));
    TypesHaveNames(s, t);
    assert FirstEight(d.mac(v)) == d.mac(v)[..8] && FirstEight(d.mac(w)) == d.mac(w)[..8];
  }

  lemma TokenParts(x: string, h: string, y: string, k: string)
    requires |h| == |k|
    ensures x + "_" + h == y + "_" + k <==> x == y && h == k
  {
    if x + "_" + h == y + "_" + k {
      assert |x + "_" + h| == |x| + 1 + |h| && |y + "_" + k| == |y| + 1 + |k|;
      assert x == (x + "_" + h)[..|x|] && y == (y + "_" + k)[..|y|];
      assert h == (x + "_" + h)[|x| + 1..] && k == (y + "_" + k)[|y| + 1..];
    }
  }

  lemma TypesHaveNames(s: PiiType, t: PiiType)
    ensures TypeName(s) == TypeName(t) <==> s == t
  {
    assert |TypeName(s)| > 1 && |TypeName(t)| > 1;
    if TypeName(s) == TypeName(t) {
      assert TypeName(s)[0] == TypeName(t)[0] && TypeName(s)[1] == TypeName(t)[1];
    }
  }

  /** Spellings that agree in lower case, up to whitespace around them, share a token. */
  lemma SpellingsAreOne(d: Deriver, a: string, b: string, pre: string, post: string, t: PiiType)
    requires AllSpace(pre) && AllSpace(post) && d.lower(b) == pre + d.lower(a) + post
    ensures DeriveToken(d, a, t) == DeriveToken(d, b, t)
  {
    TrimIgnoresSpace(pre, d.lower(a), post);
  }

  lemma DerivedTokenHasNoColon(d: Deriver, raw: string, piiType: PiiType)
    requires HexDigest(d)
    ensures NoColon(DeriveToken(d, raw, piiType))
  {
    var name, hex := TypeName(piiType), FirstEight(d.mac(Canonicalise(d, raw)));
    assert NoColon(name);
    assert IsHex(d.mac(Canonicalise(d, raw))) && NoColon(hex);
  }

  function TokenOf(d: Deriver, s: Span): string {
    DeriveToken(d, s.raw, s.piiType)
  }

  // ---------------------------------------------------------------------------
  // Rewriting from left to right
  // ---------------------------------------------------------------------------

  /** In bounds, ordered and disjoint. */
  ghost predicate Replaceable(text: string, spans: seq<Span>) {
    && (forall i :: 0 <= i < |spans| ==> 0 <= spans[i].start < spans[i].end <= |text|)
    && Disjoint(spans)
  }

  /** A stretch of the output: text copied from the input, or a token put in. */
  datatype Piece = Gap(text: string) | Token(token: string)

  /** The input from `pos` on, cut at the spans. */
  function Pieces(d: Deriver, text: string, spans: seq<Span>, pos: int): seq<Piece>
    requires Replaceable(text, spans) && 0 <= pos <= |text| && (spans != [] ==> pos <= spans[0].start)
  {
    if spans == [] then [Gap(text[pos..])]
    else [Gap(text[pos..spans[0].start]), Token(TokenOf(d, spans[0]))] + Pieces(d, text, spans[1..], spans[0].end)
  }

  function PieceText(p: Piece): string {
    match p
    case Gap(t) => t
    case Token(t) => t
  }

  function Joined(pieces: seq<Piece>): string {
    if pieces == [] then [] else PieceText(pieces[0]) + Joined(pieces[1..])
  }

  /** The input from `pos` on with tokens in place of the spans. */
  function Rewrite(d: Deriver, text: string, spans: seq<Span>, pos: int): string
    requires Replaceable(text, spans) && 0 <= pos <= |text| && (spans != [] ==> pos <= spans[0].start)
  {
    Joined(Pieces(d, text, spans, pos))
  }

  lemma RewriteUnfold(d: Deriver, text: string, spans: seq<Span>, pos: int)
    requires Replaceable(text, spans) && 0 <= pos <= |text| && (spans != [] ==> pos <= spans[0].start)
    ensures Rewrite(d, text, spans, pos) ==
      if spans == [] then text[pos..]
      else text[pos..spans[0].start] + (TokenOf(d, spans[0]) + Rewrite(d, text, spans[1..], spans[0].end))
  {
    if spans == [] {
      JoinedCons(Gap(text[pos..]), []);
      assert [Gap(text[pos..])] + [] == [Gap(text[pos..])] && text[pos..] + [] == text[pos..];
    } else {
      var rest := Pieces(d, text, spans[1..], spans[0].end);
      var gap, token := Gap(text[pos..spans[0].start]), Token(TokenOf(d, spans[0]));
      assert [gap, token] + rest == [gap] + ([token] + rest);
      JoinedCons(gap, [token] + rest);
      JoinedCons(token, rest);
    }
  }

  lemma JoinedCons(p: Piece, rest: seq<Piece>)
    ensures Joined([p] + rest) == PieceText(p) + Joined(rest)
  {
    assert ([p] + rest)[1..] == rest;
  }

  /** The split point between untouched and rewritten text can move left over a gap. */
  lemma MoveSplit(d: Deriver, text: string, spans: seq<Span>, p: int, q: int)
    requires Replaceable(text, spans) && 0 <= q <= p <= |text| && (spans != [] ==> p <= spans[0].start)
    ensures text[..p] + Rewrite(d, text, spans, p) == text[..q] + Rewrite(d, text, spans, q)
  {
    RewriteUnfold(d, text, spans, p);
    RewriteUnfold(d, text, spans, q);
    if spans == [] {
      CutAnywhere(text, p);
      CutAnywhere(text, q);
    } else {
      var rest := TokenOf(d, spans[0]) + Rewrite(d, text, spans[1..], spans[0].end);
      JoinGap(text, p, spans[0].start, rest);
      JoinGap(text, q, spans[0].start, rest);
    }
  }

  lemma CutAnywhere(text: string, p: int)
    requires 0 <= p <= |text|
    ensures text[..p] + text[p..] == text
  {
  }

  lemma JoinGap(text: string, p: int, s: int, rest: string)
    requires 0 <= p <= s <= |text|
    ensures text[..p] + (text[p..s] + rest) == text[..s] + rest
  {
    assert text[..p] + text[p..s] == text[..s];
    Associate(text[..p], text[p..s], rest);
  }

  // ---------------------------------------------------------------------------
  // Splicing from back to front
  // ---------------------------------------------------------------------------

  function InsertLater(s: Span, sorted: seq<Span>): seq<Span> {
    if sorted == [] || !(sorted[0].start > s.start) then [s] + sorted
    else [sorted[0]] + InsertLater(s, sorted[1..])
  }

  /** The spans sorted by descending start. */
  function SortDescending(spans: seq<Span>): seq<Span> {
    if spans == [] then [] else InsertLater(spans[0], SortDescending(spans[1..]))
  }

  function Reversed(spans: seq<Span>): (r: seq<Span>)
    ensures |r| == |spans|
    ensures forall i :: 0 <= i < |spans| ==> r[i] == spans[|spans| - 1 - i]
  {
    if spans == [] then [] else Reversed(spans[1..]) + [spans[0]]
  }

  lemma {:induction false} InsertBeforeAll(s: Span, sorted: seq<Span>)
    requires forall i :: 0 <= i < |sorted| ==> sorted[i].start > s.start
    ensures InsertLater(s, sorted) == sorted + [s]
  {
    if sorted != [] {
      InsertBeforeAll(s, sorted[1..]);
      assert sorted == [sorted[0]] + sorted[1..];
    }
  }

  lemma {:induction false} DescendingIsReversed(text: string, spans: seq<Span>)
    requires Replaceable(text, spans)
    ensures SortDescending(spans) == Reversed(spans)
  {
    if spans != [] {
      DescendingIsReversed(text, spans[1..]);
      InsertBeforeAll(spans[0], Reversed(spans[1..]));
    }
  }

  /** What the loop has after the spans from index `j` on were spliced in. */
  ghost predicate SplicedFrom(d: Deriver, text: string, spans: seq<Span>, j: nat, anonymised: string)
    requires Replaceable(text, spans) && j <= |spans|
  {
    var pos := if j == 0 then 0 else spans[j - 1].end;
    anonymised == text[..pos] + Rewrite(d, text, spans[j..], pos)
  }

  lemma SpliceOne(d: Deriver, text: string, spans: seq<Span>, j: nat, anonymised: string)
    requires Replaceable(text, spans) && 0 < j <= |spans| && SplicedFrom(d, text, spans, j, anonymised)
    ensures spans[j - 1].end <= |anonymised|
    ensures SplicedFrom(d, text, spans, j - 1,
      anonymised[..spans[j - 1].start] + TokenOf(d, spans[j - 1]) + anonymised[spans[j - 1].end..])
  {
    var s, from := spans[j - 1], spans[j - 1..];
    assert from[1..] == spans[j..] && from[0] == s;
    RewriteAtSpan(d, text, from);
    SpliceText(text, anonymised, Rewrite(d, text, spans[j..], s.end), s.start, s.end, TokenOf(d, s));
    MoveSplit(d, text, from, s.start, if j == 1 then 0 else spans[j - 2].end);
  }

  lemma RewriteAtSpan(d: Deriver, text: string, spans: seq<Span>)
    requires Replaceable(text, spans) && spans != []
    ensures Rewrite(d, text, spans, spans[0].start) == TokenOf(d, spans[0]) + Rewrite(d, text, spans[1..], spans[0].end)
  {
    RewriteUnfold(d, text, spans, spans[0].start);
    EmptyGap(text, spans[0].start, TokenOf(d, spans[0]) + Rewrite(d, text, spans[1..], spans[0].end));
  }

  lemma SpliceText(text: string, anonymised: string, rest: string, from: int, to: int, token: string)
    requires 0 <= from <= to <= |text| && anonymised == text[..to] + rest
    ensures to <= |anonymised|
    ensures anonymised[..from] + token + anonymised[to..] == text[..from] + (token + rest)
  {
    CutAt(text, rest, from, to);
    Associate(text[..from], token, rest);
  }

  lemma CutAt(text: string, rest: string, from: int, to: int)
    requires 0 <= from <= to <= |text|
    ensures (text[..to] + rest)[..from] == text[..from] && (text[..to] + rest)[to..] == rest
  {
  }

  lemma EmptyGap(text: string, p: int, rest: string)
    requires 0 <= p <= |text|
    ensures text[p..p] + rest == rest
  {
  }

  lemma Associate(a: string, b: string, c: string)
    ensures a + b + c == a + (b + c)
  {
  }

  /** The `tokens` map: later writes win, and the loop writes from right to left. */
  function TokenMap(d: Deriver, spans: seq<Span>): map<string, string> {
    if spans == [] then map[] else TokenMap(d, spans[1..])[TokenOf(d, spans[0]) := spans[0].raw]
  }

  /** The loop of `tokenise`: back-to-front splicing equals the left-to-right rewrite. */
  method TokeniseSpans(
      d: Deriver, text: string, spans: seq<Span>) returns (anonymised: string, tokens: map<string, string>)
    requires Replaceable(text, spans)
    ensures anonymised == Rewrite(d, text, spans, 0)
    ensures tokens == TokenMap(d, spans)
  {
    var sorted := SortDescending(spans);
    DescendingIsReversed(text, spans);
    anonymised, tokens := text, map[];
    NothingSpliced(d, text, spans);
    for i := 0 to |sorted|
      invariant Spliced(d, text, spans, |spans| - i, anonymised, tokens)
    {
      var span := sorted[i];
      SpliceNext(d, text, spans, |spans| - i, anonymised, tokens);
      var token := DeriveToken(d, span.raw, span.piiType);
      anonymised := anonymised[..span.start] + token + anonymised[span.end..];
      tokens := tokens[token := span.raw];
    }
    AllSpliced(d, text, spans, anonymised, tokens);
  }

  /** The loop's variables once the spans from index `j` on are spliced in. */
  ghost predicate Spliced(
      d: Deriver, text: string, spans: seq<Span>, j: nat, anonymised: string, tokens: map<string, string>)
    requires Replaceable(text, spans) && j <= |spans|
  {
    SplicedFrom(d, text, spans, j, anonymised) && tokens == TokenMap(d, spans[j..])
  }

  lemma NothingSpliced(d: Deriver, text: string, spans: seq<Span>)
    requires Replaceable(text, spans)
    ensures Spliced(d, text, spans, |spans|, text, map[])
  {
    var pos := if spans == [] then 0 else spans[|spans| - 1].end;
    RewriteUnfold(d, text, [], pos);
    assert spans[|spans|..] == [] && text[..pos] + text[pos..] == text;
  }

  lemma SpliceNext(d: Deriver, text: string, spans: seq<Span>, j: nat, anonymised: string, tokens: map<string, string>)
    requires Replaceable(text, spans) && 0 < j <= |spans| && Spliced(d, text, spans, j, anonymised, tokens)
    ensures var s, token := spans[j - 1], TokenOf(d, spans[j - 1]);
      && s.end <= |anonymised|
      && Spliced(d, text, spans, j - 1, anonymised[..s.start] + token + anonymised[s.end..], tokens[token := s.raw])
  {
    SpliceOne(d, text, spans, j, anonymised);
    assert spans[j - 1..][1..] == spans[j..];
  }

  lemma AllSpliced(d: Deriver, text: string, spans: seq<Span>, anonymised: string, tokens: map<string, string>)
    requires Replaceable(text, spans) && Spliced(d, text, spans, 0, anonymised, tokens)
    ensures anonymised == Rewrite(d, text, spans, 0) && tokens == TokenMap(d, spans)
  {
    assert spans[0..] == spans && text[..0] == "";
  }

  // ---------------------------------------------------------------------------
  // Putting the values back
  // ---------------------------------------------------------------------------

  /** The token of the map that `s` begins with. */
  ghost predicate Begins(s: string, tokens: map<string, string>, t: string) {
    t != "" && t <= s && t in tokens
  }

  /** The text read from left to right, every token of the map replaced by its value. */
  ghost function Substitute(s: string, tokens: map<string, string>): string
    decreases |s|
  {
    if s == [] then []
    else if exists t :: Begins(s, tokens, t) then
      var t :| Begins(s, tokens, t);
      tokens[t] + Substitute(s[|t|..], tokens)
    else [s[0]] + Substitute(s[1..], tokens)
  }

  // The shape of tokens keeps occurrences apart.

  function Shape(name: string, hex: string): string {
    name + ("_" + hex)
  }

  /** A type name, an underscore and eight hexadecimal digits. */
  ghost predicate HasShape(t: string, piiType: PiiType, hex: string) {
    t == Shape(TypeName(piiType), hex) && |hex| == 8 && IsHex(hex)
  }

  ghost predicate IsToken(t: string) {
    exists piiType, hex :: HasShape(t, piiType, hex)
  }

  lemma DerivedIsToken(d: Deriver, raw: string, piiType: PiiType)
    requires HexDigest(d)
    ensures IsToken(DeriveToken(d, raw, piiType))
  {
    var hex := FirstEight(d.mac(Canonicalise(d, raw)));
    assert IsHex(d.mac(Canonicalise(d, raw)));
    assert TypeName(piiType) + "_" + hex == Shape(TypeName(piiType), hex);
    assert HasShape(DeriveToken(d, raw, piiType), piiType, hex);
  }

  predicate NoUnderscore(s: string) {
    forall i :: 0 <= i < |s| ==> s[i] != '_'
  }

  lemma NamesHaveNoUnderscore(t: PiiType)
    ensures NoUnderscore(TypeName(t)) && TypeName(t) != ""
    ensures 'A' <= TypeName(t)[0] <= 'Z'
  {
  }

  /** The underscore says where the name ends. */
  lemma SameUnderscore(name1: string, hex1: string, name2: string, rest2: string)
    requires NoUnderscore(name1) && NoUnderscore(name2)
    requires Shape(name1, hex1) <= name2 + ("_" + rest2)
    ensures name1 == name2
  {
    var t, s := Shape(name1, hex1), name2 + ("_" + rest2);
    assert t[|name1|] == '_' && s[|name2|] == '_';
    assert forall i :: 0 <= i < |name1| ==> t[i] == name1[i];
    assert forall i :: 0 <= i < |name2| ==> s[i] == name2[i];
    assert forall i :: 0 <= i < |t| ==> t[i] == s[i];
    assert |name1| == |name2|;
  }

  /** No token begins another. */
  lemma TokensPrefixFree(t: string, u: string, rest: string)
    requires IsToken(t) && IsToken(u) && u <= t + rest
    ensures u == t
  {
    var tt, th :| HasShape(t, tt, th);
    var ut, uh :| HasShape(u, ut, uh);
    NamesHaveNoUnderscore(tt);
    NamesHaveNoUnderscore(ut);
    assert t + rest == TypeName(tt) + ("_" + (th + rest));
    SameUnderscore(TypeName(ut), uh, TypeName(tt), th + rest);
    assert |u| == |t| && (t + rest)[..|t|] == t;
  }

  /** No type name ends in another. */
  lemma NamesSuffixFree(t: PiiType, u: PiiType, g: string)
    requires TypeName(t) == g + TypeName(u)
    ensures g == ""
  {
    var n, m := TypeName(t), TypeName(u);
    assert n[|n| - 1] == m[|m| - 1] && n[|n| - 2] == m[|m| - 2] && n[|n| - 3] == m[|m| - 3];
  }

  /** A token that begins in a gap and reaches the token behind it is still in its own name there. */
  lemma StraddleIsInName(name1: string, hex1: string, g: string, name2: string, rest2: string)
    requires IsHex(hex1) && name2 != "" && 'A' <= name2[0] <= 'Z'
    requires |g| < |Shape(name1, hex1)| && Shape(name1, hex1) <= g + (name2 + rest2)
    ensures |g| < |name1| && g == name1[..|g|]
  {
    var u, s := Shape(name1, hex1), g + (name2 + rest2);
    assert u[|g|] == s[|g|] == name2[0];
    assert forall i :: |name1| < i < |u| ==> u[i] == hex1[i - |name1| - 1];
    assert u[|name1|] == '_';
    assert forall i :: 0 <= i < |g| ==> u[i] == s[i] == g[i];
  }

  lemma StraddleMakesSuffix(name1: string, hex1: string, g: string, name2: string, rest2: string)
    requires NoUnderscore(name1) && NoUnderscore(name2) && IsHex(hex1) && name2 != "" && 'A' <= name2[0] <= 'Z'
    requires |g| < |Shape(name1, hex1)| && Shape(name1, hex1) <= g + (name2 + ("_" + rest2))
    ensures name1 == g + name2
  {
    StraddleIsInName(name1, hex1, g, name2, "_" + rest2);
    assert g + (name2 + ("_" + rest2)) == (g + name2) + ("_" + rest2);
    SameUnderscore(name1, hex1, g + name2, rest2);
  }

  /** No token begins in text and ends in a token that follows the text. */
  lemma TokensDoNotStraddle(u: string, g: string, t: string, rest: string)
    requires IsToken(u) && IsToken(t) && |g| < |u| && u <= g + (t + rest)
    ensures g == ""
  {
    var ut, uh :| HasShape(u, ut, uh);
    var tt, th :| HasShape(t, tt, th);
    NamesHaveNoUnderscore(ut);
    NamesHaveNoUnderscore(tt);
    assert t + rest == TypeName(tt) + ("_" + (th + rest));
    StraddleMakesSuffix(TypeName(ut), uh, g, TypeName(tt), th + rest);
    NamesSuffixFree(ut, tt, g);
  }

  /** The map gives back the value of every span. */
  ghost predicate GivesBack(d: Deriver, spans: seq<Span>, tokens: map<string, string>) {
    forall i :: 0 <= i < |spans| ==> TokenOf(d, spans[i]) in tokens && tokens[TokenOf(d, spans[i])] == spans[i].raw
  }

  /** No token stands for two different values in this text. */
  ghost predicate NoSharedToken(d: Deriver, spans: seq<Span>) {
    forall i, j :: 0 <= i < |spans| && 0 <= j < |spans| && TokenOf(d, spans[i]) == TokenOf(d, spans[j]) ==>
      spans[i].raw == spans[j].raw
  }

  lemma {:induction false} MapHoldsTokens(d: Deriver, spans: seq<Span>)
    ensures forall i :: 0 <= i < |spans| ==> TokenOf(d, spans[i]) in TokenMap(d, spans)
    ensures forall t :: t in TokenMap(d, spans) ==> ComesFrom(d, spans, t)
  {
    if spans != [] {
      MapHoldsTokens(d, spans[1..]);
      forall t | t in TokenMap(d, spans) ensures ComesFrom(d, spans, t) {
        if t == TokenOf(d, spans[0]) {
          assert IsSource(d, spans, t, 0);
        } else {
          assert t in TokenMap(d, spans[1..]) && ComesFrom(d, spans[1..], t);
          var i :| IsSource(d, spans[1..], t, i);
          assert IsSource(d, spans, t, i + 1);
        }
      }
    }
  }

  ghost predicate IsSource(d: Deriver, spans: seq<Span>, t: string, i: int) {
    0 <= i < |spans| && TokenOf(d, spans[i]) == t && t in TokenMap(d, spans) && TokenMap(d, spans)[t] == spans[i].raw
  }

  ghost predicate ComesFrom(d: Deriver, spans: seq<Span>, t: string) {
    exists i :: IsSource(d, spans, t, i)
  }

  lemma MapGivesBackExactly(d: Deriver, spans: seq<Span>)
    ensures GivesBack(d, spans, TokenMap(d, spans)) == NoSharedToken(d, spans)
  {
    MapHoldsTokens(d, spans);
    var tokens := TokenMap(d, spans);
    if NoSharedToken(d, spans) {
      forall i | 0 <= i < |spans| ensures tokens[TokenOf(d, spans[i])] == spans[i].raw {
        assert ComesFrom(d, spans, TokenOf(d, spans[i]));
        var k :| IsSource(d, spans, TokenOf(d, spans[i]), k);
      }
    }
  }

  lemma GivesBackCons(d: Deriver, spans: seq<Span>, tokens: map<string, string>)
    requires spans != [] && forall i :: 0 <= i < |spans| ==> TokenOf(d, spans[i]) in tokens
    ensures GivesBack(d, spans, tokens)
      <==> tokens[TokenOf(d, spans[0])] == spans[0].raw && GivesBack(d, spans[1..], tokens)
  {
    if GivesBack(d, spans[1..], tokens) && tokens[TokenOf(d, spans[0])] == spans[0].raw {
      forall i | 0 < i < |spans| ensures tokens[TokenOf(d, spans[i])] == spans[i].raw {
        assert spans[i] == spans[1..][i - 1];
      }
    }
    if GivesBack(d, spans, tokens) {
      forall i | 0 <= i < |spans| - 1 ensures tokens[TokenOf(d, spans[1..][i])] == spans[1..][i].raw {
        assert spans[1..][i] == spans[i + 1];
      }
    }
  }

  // ---------------------------------------------------------------------------
  // Substituting in gaps and at tokens
  // ---------------------------------------------------------------------------

  ghost predicate AreTokens(tokens: map<string, string>) {
    forall t :: t in tokens ==> IsToken(t)
  }

  /** No token of the map occurs in the text. */
  ghost predicate Clean(g: string, tokens: map<string, string>) {
    forall t, k :: t in tokens && 0 <= k <= |g| ==> !(t <= g[k..])
  }

  /** What follows a gap: nothing, or a token. */
  ghost predicate EndsGap(tail: string) {
    tail == "" || exists t, rest :: IsToken(t) && tail == t + rest
  }

  /** A token found at the start of a gap lies in the gap. */
  lemma FoundInGap(g: string, tail: string, tokens: map<string, string>, t: string)
    requires AreTokens(tokens) && EndsGap(tail) && g != "" && Begins(g + tail, tokens, t)
    ensures t <= g
  {
    if |t| > |g| {
      var u, rest :| IsToken(u) && tail == u + rest;
      TokensDoNotStraddle(t, g, u, rest);
    }
    assert (g + tail)[..|g|] == g;
  }

  /** A character at which no token begins is copied. */
  lemma SkipHead(g: string, tail: string, tokens: map<string, string>)
    requires g != "" && forall t :: !Begins(g + tail, tokens, t)
    ensures Substitute(g + tail, tokens) == [g[0]] + Substitute(g[1..] + tail, tokens)
  {
    assert (g + tail)[1..] == g[1..] + tail;
  }

  lemma RejoinHead(g: string, k: nat, x: string)
    requires k < |g|
    ensures [g[0]] + (g[1..][..k] + x) == g[..k + 1] + x && g[1..][k..] == g[k + 1..]
  {
  }

  lemma {:induction false} SubstituteClean(g: string, tail: string, tokens: map<string, string>)
    requires AreTokens(tokens) && EndsGap(tail) && Clean(g, tokens)
    ensures Substitute(g + tail, tokens) == g + Substitute(tail, tokens)
  {
    if g == "" {
      assert g + tail == tail;
    } else {
      NothingBegins(g, tail, tokens);
      SkipHead(g, tail, tokens);
      CleanTail(g, tokens);
      SubstituteClean(g[1..], tail, tokens);
      RejoinAll(g, Substitute(tail, tokens));
    }
  }

  lemma RejoinAll(g: string, x: string)
    requires g != ""
    ensures [g[0]] + (g[1..] + x) == g + x
  {
  }

  lemma NothingBegins(g: string, tail: string, tokens: map<string, string>)
    requires AreTokens(tokens) && EndsGap(tail) && g != "" && Clean(g, tokens)
    ensures forall t :: !Begins(g + tail, tokens, t)
  {
    assert g[0..] == g;
    forall t | Begins(g + tail, tokens, t) ensures t <= g[0..] {
      FoundInGap(g, tail, tokens, t);
    }
  }

  lemma CleanTail(g: string, tokens: map<string, string>)
    requires g != "" && Clean(g, tokens)
    ensures Clean(g[1..], tokens)
  {
    forall t, k | t in tokens && 0 <= k <= |g[1..]| ensures !(t <= g[1..][k..]) {
      assert g[1..][k..] == g[k + 1..];
    }
  }

  lemma SubstituteToken(t: string, rest: string, tokens: map<string, string>)
    requires AreTokens(tokens) && t in tokens
    ensures Substitute(t + rest, tokens) == tokens[t] + Substitute(rest, tokens)
  {
    TokenIsNotEmpty(t);
    assert Begins(t + rest, tokens, t) && (t + rest)[|t|..] == rest;
    forall u | Begins(t + rest, tokens, u) ensures u == t { TokensPrefixFree(t, u, rest); }
  }

  lemma TokenIsNotEmpty(t: string)
    requires IsToken(t)
    ensures t != ""
  {
    var piiType, hex :| HasShape(t, piiType, hex);
    NamesHaveNoUnderscore(piiType);
  }

  /** In a gap that is not clean, the first token found is replaced. */
  lemma {:induction false} SubstituteDirty(g: string, tail: string, tokens: map<string, string>)
    returns (k: nat, t: string, back: string)
    requires AreTokens(tokens) && EndsGap(tail) && !Clean(g, tokens)
    ensures k <= |g| && t in tokens && t <= g[k..]
    ensures Substitute(g + tail, tokens) == g[..k] + (tokens[t] + back)
  {
    if g != "" && exists u :: Begins(g + tail, tokens, u) {
      t, back := FirstFound(g, tail, tokens);
      k := 0;
      assert g[..0] == "" && g[0..] == g;
    } else {
      HeadIsClean(g, tail, tokens);
      SkipHead(g, tail, tokens);
      k, t, back := SubstituteDirty(g[1..], tail, tokens);
      RejoinHead(g, k, tokens[t] + back);
      k := k + 1;
    }
  }

  lemma FirstFound(g: string, tail: string, tokens: map<string, string>) returns (t: string, back: string)
    requires AreTokens(tokens) && EndsGap(tail) && g != "" && exists u :: Begins(g + tail, tokens, u)
    ensures t in tokens && t <= g && Substitute(g + tail, tokens) == tokens[t] + back
  {
    t :| Begins(g + tail, tokens, t);
    FoundInGap(g, tail, tokens, t);
    SplitOff(g, tail, t);
    SubstituteToken(t, g[|t|..] + tail, tokens);
    back := Substitute(g[|t|..] + tail, tokens);
  }

  lemma SplitOff(g: string, tail: string, t: string)
    requires t <= g
    ensures g + tail == t + (g[|t|..] + tail)
  {
  }

  lemma HeadIsClean(g: string, tail: string, tokens: map<string, string>)
    requires AreTokens(tokens) && !Clean(g, tokens) && (g != "" ==> forall u :: !Begins(g + tail, tokens, u))
    ensures g != "" && !Clean(g[1..], tokens)
  {
    var t, k :| t in tokens && 0 <= k <= |g| && t <= g[k..];
    TokenIsNotEmpty(t);
    assert g[0..] == g;
    if k == 0 {
      BeginsAtStart(g, tail, tokens, t);
    } else {
      ShiftDown(g, k, t);
    }
  }

  lemma BeginsAtStart(g: string, tail: string, tokens: map<string, string>, t: string)
    requires t != "" && t in tokens && t <= g
    ensures Begins(g + tail, tokens, t)
  {
  }

  lemma ShiftDown(g: string, k: nat, t: string)
    requires 0 < k <= |g| && t <= g[k..]
    ensures t <= g[1..][k - 1..]
  {
    assert g[1..][k - 1..] == g[k..];
  }

  // ---------------------------------------------------------------------------
  // When the text comes back
  // ---------------------------------------------------------------------------

  /** No token of the map occurs in the text between the spans. */
  ghost predicate GapsClean(text: string, spans: seq<Span>, pos: int, tokens: map<string, string>)
    requires Replaceable(text, spans) && 0 <= pos <= |text| && (spans != [] ==> pos <= spans[0].start)
  {
    if spans == [] then Clean(text[pos..], tokens)
    else Clean(text[pos..spans[0].start], tokens) && GapsClean(text, spans[1..], spans[0].end, tokens)
  }

  /** One text is the beginning of the other. */
  predicate Comparable(a: string, b: string) {
    a <= b || b <= a
  }

  /** Values of one token are equal or differ at some place both have, and so do a value and its token. */
  ghost predicate Distinguishable(d: Deriver, spans: seq<Span>) {
    && (forall i :: 0 <= i < |spans| ==> !Comparable(spans[i].raw, TokenOf(d, spans[i])))
    && (forall i, j :: 0 <= i < |spans| && 0 <= j < |spans| && TokenOf(d, spans[i]) == TokenOf(d, spans[j]) ==>
          Comparable(spans[i].raw, spans[j].raw) ==> spans[i].raw == spans[j].raw)
  }

  /** The same, of the values in a map. */
  ghost predicate Apart(d: Deriver, spans: seq<Span>, tokens: map<string, string>) {
    && (forall t :: t in tokens ==> !Comparable(tokens[t], t))
    && (forall i :: 0 <= i < |spans| && TokenOf(d, spans[i]) in tokens ==>
          Comparable(tokens[TokenOf(d, spans[i])], spans[i].raw) ==> tokens[TokenOf(d, spans[i])] == spans[i].raw)
  }

  lemma MapIsApart(d: Deriver, spans: seq<Span>)
    requires Distinguishable(d, spans)
    ensures Apart(d, spans, TokenMap(d, spans))
  {
    var tokens := TokenMap(d, spans);
    MapHoldsTokens(d, spans);
    forall t | t in tokens ensures !Comparable(tokens[t], t) {
      assert ComesFrom(d, spans, t);
      var i :| IsSource(d, spans, t, i);
    }
    forall i | 0 <= i < |spans| && Comparable(tokens[TokenOf(d, spans[i])], spans[i].raw)
      ensures tokens[TokenOf(d, spans[i])] == spans[i].raw
    {
      assert ComesFrom(d, spans, TokenOf(d, spans[i]));
      var k :| IsSource(d, spans, TokenOf(d, spans[i]), k);
    }
  }

  lemma MapOfTokens(d: Deriver, spans: seq<Span>)
    requires HexDigest(d)
    ensures AreTokens(TokenMap(d, spans))
  {
    MapHoldsTokens(d, spans);
    forall t | t in TokenMap(d, spans) ensures IsToken(t) {
      assert ComesFrom(d, spans, t);
      var i :| IsSource(d, spans, t, i);
      DerivedIsToken(d, spans[i].raw, spans[i].piiType);
    }
  }

  /** The rewritten rest after a gap starts with a token. */
  lemma GapEnds(d: Deriver, s: Span, rest: string)
    requires HexDigest(d)
    ensures EndsGap(TokenOf(d, s) + rest)
  {
    DerivedIsToken(d, s.raw, s.piiType);
  }

  lemma TextAtGap(text: string, pos: int, s: Span)
    requires 0 <= pos <= s.start < s.end <= |text| && Exact(text, s)
    ensures text[pos..] == text[pos..s.start] + (s.raw + text[s.end..])
  {
  }

  /** Exact spans whose tokens the map holds. */
  ghost predicate IsCovered(d: Deriver, text: string, spans: seq<Span>, tokens: map<string, string>) {
    && HexDigest(d) && AreTokens(tokens) && Replaceable(text, spans) && AllExact(text, spans)
    && forall i :: 0 <= i < |spans| ==> TokenOf(d, spans[i]) in tokens
  }

  lemma TailIsCovered(d: Deriver, text: string, spans: seq<Span>, tokens: map<string, string>)
    requires spans != [] && IsCovered(d, text, spans, tokens)
    ensures IsCovered(d, text, spans[1..], tokens)
    ensures |spans| > 1 ==> spans[0].end <= spans[1].start
    ensures Exact(text, spans[0]) && TokenOf(d, spans[0]) in tokens
  {
    assert forall i :: 0 <= i < |spans[1..]| ==> spans[1..][i] == spans[i + 1];
  }

  /** A clean gap and a value come back, and leave the rest to come back. */
  lemma ComesBackAtHead(d: Deriver, text: string, s: Span, pos: int, rest: string, tokens: map<string, string>)
    requires HexDigest(d) && AreTokens(tokens) && 0 <= pos <= s.start < s.end <= |text| && Exact(text, s)
    requires TokenOf(d, s) in tokens && tokens[TokenOf(d, s)] == s.raw && Clean(text[pos..s.start], tokens)
    requires Substitute(rest, tokens) == text[s.end..]
    ensures Substitute(text[pos..s.start] + (TokenOf(d, s) + rest), tokens) == text[pos..]
  {
    GapEnds(d, s, rest);
    SubstituteClean(text[pos..s.start], TokenOf(d, s) + rest, tokens);
    SubstituteToken(TokenOf(d, s), rest, tokens);
    TextAtGap(text, pos, s);
  }

  lemma LastGapComesBack(text: string, pos: int, tokens: map<string, string>)
    requires AreTokens(tokens) && 0 <= pos <= |text| && Clean(text[pos..], tokens)
    ensures Substitute(text[pos..], tokens) == text[pos..]
  {
    SubstituteClean(text[pos..], "", tokens);
    assert text[pos..] + "" == text[pos..];
  }

  lemma {:induction false} CleanTextComesBack(
      d: Deriver, text: string, spans: seq<Span>, pos: int, tokens: map<string, string>)
    requires IsCovered(d, text, spans, tokens)
    requires 0 <= pos <= |text| && (spans != [] ==> pos <= spans[0].start)
    requires GivesBack(d, spans, tokens) && GapsClean(text, spans, pos, tokens)
    ensures Substitute(Rewrite(d, text, spans, pos), tokens) == text[pos..]
  {
    RewriteUnfold(d, text, spans, pos);
    if spans == [] {
      LastGapComesBack(text, pos, tokens);
    } else {
      TailIsCovered(d, text, spans, tokens);
      GivesBackCons(d, spans, tokens);
      CleanTextComesBack(d, text, spans[1..], spans[0].end, tokens);
      ComesBackAtHead(d, text, spans[0], pos, Rewrite(d, text, spans[1..], spans[0].end), tokens);
    }
  }

  /** A gap with a token in it does not come back. */
  lemma DirtyGapIsLost(g: string, tail: string, rest: string, tokens: map<string, string>)
    requires AreTokens(tokens) && EndsGap(tail) && !Clean(g, tokens)
    requires forall t :: t in tokens ==> !Comparable(tokens[t], t)
    ensures Substitute(g + tail, tokens) != g + rest
  {
    var k, t, back := SubstituteDirty(g, tail, tokens);
    if g[..k] + (tokens[t] + back) == g + rest {
      CancelFront(g, k, tokens[t] + back, rest);
      BothBegin(tokens[t], t, tokens[t] + back, g[k..] + rest);
    }
  }

  lemma CancelFront(g: string, k: nat, x: string, rest: string)
    requires k <= |g| && g[..k] + x == g + rest
    ensures x == g[k..] + rest
  {
    assert (g[..k] + x)[k..] == x && (g + rest)[k..] == g[k..] + rest;
  }

  lemma BothBegin(a: string, b: string, s: string, t: string)
    requires a <= s && b <= t && s == t
    ensures Comparable(a, b)
  {
  }

  lemma CancelHead(g: string, a: string, x: string, b: string, y: string)
    requires g + (a + x) == g + (b + y)
    ensures Comparable(a, b) && (a == b ==> x == y)
  {
    assert (g + (a + x))[|g|..] == a + x && (g + (b + y))[|g|..] == b + y;
    assert a == b ==> (a + x)[|a|..] == x && (b + y)[|b|..] == y;
    BothBegin(a, b, a + x, b + y);
  }

  /** If the rewritten text comes back, so do its first gap, its first value and what follows. */
  lemma BackAtHead(d: Deriver, text: string, s: Span, pos: int, rest: string, tokens: map<string, string>)
    requires HexDigest(d) && AreTokens(tokens) && 0 <= pos <= s.start < s.end <= |text| && Exact(text, s)
    requires TokenOf(d, s) in tokens && forall t :: t in tokens ==> !Comparable(tokens[t], t)
    requires Comparable(tokens[TokenOf(d, s)], s.raw) ==> tokens[TokenOf(d, s)] == s.raw
    requires Substitute(text[pos..s.start] + (TokenOf(d, s) + rest), tokens) == text[pos..]
    ensures Clean(text[pos..s.start], tokens) && tokens[TokenOf(d, s)] == s.raw
    ensures Substitute(rest, tokens) == text[s.end..]
  {
    var g, tail := text[pos..s.start], TokenOf(d, s) + rest;
    GapEnds(d, s, rest);
    TextAtGap(text, pos, s);
    GapIsClean(g, tail, s.raw + text[s.end..], tokens);
    SubstituteClean(g, tail, tokens);
    SubstituteToken(TokenOf(d, s), rest, tokens);
    CancelHead(g, tokens[TokenOf(d, s)], Substitute(rest, tokens), s.raw, text[s.end..]);
  }

  lemma {:induction false} BackMeansClean(
      d: Deriver, text: string, spans: seq<Span>, pos: int, tokens: map<string, string>)
    requires IsCovered(d, text, spans, tokens) && Apart(d, spans, tokens)
    requires 0 <= pos <= |text| && (spans != [] ==> pos <= spans[0].start)
    requires Substitute(Rewrite(d, text, spans, pos), tokens) == text[pos..]
    ensures GivesBack(d, spans, tokens) && GapsClean(text, spans, pos, tokens)
  {
    RewriteUnfold(d, text, spans, pos);
    if spans == [] {
      assert text[pos..] + "" == text[pos..];
      GapIsClean(text[pos..], "", "", tokens);
    } else {
      TailIsCovered(d, text, spans, tokens);
      HeadIsApart(d, spans, tokens);
      TailIsApart(d, spans, tokens);
      BackAtHead(d, text, spans[0], pos, Rewrite(d, text, spans[1..], spans[0].end), tokens);
      BackMeansClean(d, text, spans[1..], spans[0].end, tokens);
      GivesBackCons(d, spans, tokens);
    }
  }

  lemma HeadIsApart(d: Deriver, spans: seq<Span>, tokens: map<string, string>)
    requires spans != [] && Apart(d, spans, tokens) && TokenOf(d, spans[0]) in tokens
    ensures forall t :: t in tokens ==> !Comparable(tokens[t], t)
    ensures Comparable(tokens[TokenOf(d, spans[0])], spans[0].raw) ==> tokens[TokenOf(d, spans[0])] == spans[0].raw
  {
  }

  lemma TailIsApart(d: Deriver, spans: seq<Span>, tokens: map<string, string>)
    requires spans != [] && Apart(d, spans, tokens)
    ensures Apart(d, spans[1..], tokens)
  {
    assert forall i :: 0 <= i < |spans[1..]| ==> spans[1..][i] == spans[i + 1];
  }

  lemma GapIsClean(g: string, tail: string, rest: string, tokens: map<string, string>)
    requires AreTokens(tokens) && EndsGap(tail) && Substitute(g + tail, tokens) == g + rest
    requires forall t :: t in tokens ==> !Comparable(tokens[t], t)
    ensures Clean(g, tokens)
  {
    if !Clean(g, tokens) { DirtyGapIsLost(g, tail, rest, tokens); }
  }

  /**
   Substituting the returned map in the returned text gives the input back when no token stands for
   two values and no token occurs between the spans; and only then, unless a value is the beginning
   of its own token, of another value of that token, or the other way round.
   */
  lemma TokensRestoreExactly(d: Deriver, text: string, spans: seq<Span>)
    requires HexDigest(d) && Replaceable(text, spans) && AllExact(text, spans)
    ensures NoSharedToken(d, spans) && GapsClean(text, spans, 0, TokenMap(d, spans)) ==>
      Substitute(Rewrite(d, text, spans, 0), TokenMap(d, spans)) == text
    ensures Distinguishable(d, spans) ==>
      (Substitute(Rewrite(d, text, spans, 0), TokenMap(d, spans)) == text <==>
         NoSharedToken(d, spans) && GapsClean(text, spans, 0, TokenMap(d, spans)))
  {
    var tokens := TokenMap(d, spans);
    assert text[0..] == text;
    MapHoldsTokens(d, spans);
    MapOfTokens(d, spans);
    MapGivesBackExactly(d, spans);
    if NoSharedToken(d, spans) && GapsClean(text, spans, 0, tokens) {
      CleanTextComesBack(d, text, spans, 0, tokens);
    }
    if Distinguishable(d, spans) && Substitute(Rewrite(d, text, spans, 0), tokens) == text {
      MapIsApart(d, spans);
      BackMeansClean(d, text, spans, 0, tokens);
    }
  }

  /** Text without an underscore holds no token. */
  lemma NoUnderscoreIsClean(g: string, tokens: map<string, string>)
    requires AreTokens(tokens) && NoUnderscore(g)
    ensures Clean(g, tokens)
  {
    forall t, k | t in tokens && 0 <= k <= |g| ensures !(t <= g[k..]) {
      var piiType, hex :| HasShape(t, piiType, hex);
      assert t[|TypeName(piiType)|] == '_';
      assert forall i :: 0 <= i < |g[k..]| ==> g[k..][i] == g[k + i];
    }
  }

  ghost predicate InSpan(spans: seq<Span>, i: int) {
    exists k :: 0 <= k < |spans| && spans[k].start <= i < spans[k].end
  }

  /** Every underscore of the text from `pos` on lies in a span. */
  ghost predicate UnderscoresInSpans(text: string, spans: seq<Span>, pos: int)
    requires 0 <= pos <= |text|
  {
    forall i :: pos <= i < |text| && text[i] == '_' ==> InSpan(spans, i)
  }

  lemma NotBeforeSpans(text: string, spans: seq<Span>, i: int)
    requires Replaceable(text, spans) && (spans != [] ==> i < spans[0].start)
    ensures !InSpan(spans, i)
  {
  }

  lemma {:induction false} UnderscoreFreeGapsAreClean(
      text: string, spans: seq<Span>, pos: int, tokens: map<string, string>)
    requires Replaceable(text, spans) && 0 <= pos <= |text| && (spans != [] ==> pos <= spans[0].start)
    requires AreTokens(tokens) && UnderscoresInSpans(text, spans, pos)
    ensures GapsClean(text, spans, pos, tokens)
  {
    var end := if spans == [] then |text| else spans[0].start;
    forall i | pos <= i < end ensures text[i] != '_' {
      NotBeforeSpans(text, spans, i);
    }
    NoUnderscoreIsClean(text[pos..end], tokens);
    if spans == [] {
      assert text[pos..end] == text[pos..];
    } else {
      TailKeepsUnderscores(text, spans, pos);
      UnderscoreFreeGapsAreClean(text, spans[1..], spans[0].end, tokens);
    }
  }

  lemma TailKeepsUnderscores(text: string, spans: seq<Span>, pos: int)
    requires Replaceable(text, spans) && spans != [] && 0 <= pos <= spans[0].start
    requires UnderscoresInSpans(text, spans, pos)
    ensures UnderscoresInSpans(text, spans[1..], spans[0].end)
  {
    forall i | spans[0].end <= i < |text| && text[i] == '_' ensures InSpan(spans[1..], i) {
      var k :| 0 <= k < |spans| && spans[k].start <= i < spans[k].end;
      assert spans[1..][k - 1] == spans[k];
    }
  }

  /** A text with underscores in its spans only comes back when no token stands for two values. */
  lemma UnderscoreFreeTextComesBack(d: Deriver, text: string, spans: seq<Span>)
    requires HexDigest(d) && Replaceable(text, spans) && AllExact(text, spans)
    requires UnderscoresInSpans(text, spans, 0) && NoSharedToken(d, spans)
    ensures Substitute(Rewrite(d, text, spans, 0), TokenMap(d, spans)) == text
  {
    MapOfTokens(d, spans);
    UnderscoreFreeGapsAreClean(text, spans, 0, TokenMap(d, spans));
    TokensRestoreExactly(d, text, spans);
  }

  // ---------------------------------------------------------------------------
  // Texts that do not come back
  // ---------------------------------------------------------------------------

  /** Two values with a space between them. */
  function TwoValues(a: string, b: string): string {
    a + (" " + b)
  }

  /** Both of the values, or the second one only. */
  function SpansOfTwo(a: string, b: string, piiType: PiiType, both: bool): seq<Span> {
    var second := Span(b, piiType, |a| + 1, |a| + 1 + |b|);
    if both then [Span(a, piiType, 0, |a|), second] else [second]
  }

  lemma TwoAreExact(a: string, b: string, piiType: PiiType, both: bool)
    requires a != "" && b != ""
    ensures Replaceable(TwoValues(a, b), SpansOfTwo(a, b, piiType, both))
    ensures AllExact(TwoValues(a, b), SpansOfTwo(a, b, piiType, both))
  {
    var text := TwoValues(a, b);
    assert text[0..|a|] == a && text[|a| + 1..|a| + 1 + |b|] == b;
  }

  lemma RewriteOne(d: Deriver, text: string, pos: int, s: Span)
    requires 0 <= pos <= s.start < s.end <= |text|
    ensures Replaceable(text, [s])
    ensures Rewrite(d, text, [s], pos) == text[pos..s.start] + (TokenOf(d, s) + text[s.end..])
    ensures TokenMap(d, [s]) == map[TokenOf(d, s) := s.raw]
  {
    assert [s][1..] == [];
    RewriteUnfold(d, text, [s], pos);
    RewriteUnfold(d, text, [], s.end);
    assert TokenMap(d, []) == map[];
  }

  lemma RewriteFirst(d: Deriver, text: string, s: Span, rest: seq<Span>)
    requires Replaceable(text, [s] + rest)
    ensures Replaceable(text, rest) && (rest != [] ==> s.end <= rest[0].start) && 0 <= s.start < s.end <= |text|
    ensures Rewrite(d, text, [s] + rest, 0) == text[0..s.start] + (TokenOf(d, s) + Rewrite(d, text, rest, s.end))
    ensures TokenMap(d, [s] + rest) == TokenMap(d, rest)[TokenOf(d, s) := s.raw]
  {
    var spans := [s] + rest;
    assert spans[0] == s && spans[1..] == rest;
    RewriteUnfold(d, text, spans, 0);
  }

  lemma CutsOfTwo(a: string, b: string)
    ensures var text := TwoValues(a, b);
      && text[0..|a| + 1] == a + " " && text[|a|..|a| + 1] == " "
      && text[|a| + 1 + |b|..] == "" && text[0..0] == ""
    ensures forall t :: a + " " + (t + "") == TwoValues(a, t)
  {
    forall t ensures a + " " + (t + "") == TwoValues(a, t) {
      assert t + "" == t;
    }
  }

  lemma RewriteSecond(d: Deriver, a: string, b: string, piiType: PiiType)
    requires a != "" && b != ""
    ensures Replaceable(TwoValues(a, b), SpansOfTwo(a, b, piiType, false))
    ensures Rewrite(d, TwoValues(a, b), SpansOfTwo(a, b, piiType, false), 0) == TwoValues(a, DeriveToken(d, b, piiType))
    ensures TokenMap(d, SpansOfTwo(a, b, piiType, false)) == map[DeriveToken(d, b, piiType) := b]
  {
    CutsOfTwo(a, b);
    RewriteOne(d, TwoValues(a, b), 0, Span(b, piiType, |a| + 1, |a| + 1 + |b|));
  }

  lemma RewriteBoth(d: Deriver, a: string, b: string, piiType: PiiType)
    requires a != "" && b != ""
    ensures Replaceable(TwoValues(a, b), SpansOfTwo(a, b, piiType, true))
    ensures Rewrite(d, TwoValues(a, b), SpansOfTwo(a, b, piiType, true), 0) ==
      TwoValues(DeriveToken(d, a, piiType), DeriveToken(d, b, piiType))
    ensures TokenMap(d, SpansOfTwo(a, b, piiType, true)) ==
      map[DeriveToken(d, b, piiType) := b][DeriveToken(d, a, piiType) := a]
  {
    var text := TwoValues(a, b);
    var first, second := Span(a, piiType, 0, |a|), Span(b, piiType, |a| + 1, |a| + 1 + |b|);
    assert [first] + [second] == SpansOfTwo(a, b, piiType, true);
    TwoAreExact(a, b, piiType, true);
    CutsOfTwo(a, b);
    RewriteFirst(d, text, first, [second]);
    RewriteOne(d, text, |a|, second);
    EmptyEnds(TokenOf(d, first), TokenOf(d, second));
  }

  lemma EmptyEnds(t: string, u: string)
    ensures "" + (t + (" " + (u + ""))) == TwoValues(t, u)
  {
    assert u + "" == u;
  }

  lemma SubstituteTwo(t: string, u: string, tokens: map<string, string>)
    requires AreTokens(tokens) && t in tokens && u in tokens
    ensures Substitute(TwoValues(t, u), tokens) == TwoValues(tokens[t], tokens[u])
  {
    assert u + "" == u && tokens[u] + "" == tokens[u];
    SubstituteToken(t, " " + u, tokens);
    NoUnderscoreIsClean(" ", tokens);
    assert IsToken(u) && u == u + "";
    SubstituteClean(" ", u, tokens);
    SubstituteToken(u, "", tokens);
  }

  /**
   A text that quotes the token of its own value and a text that has the value twice: both are
   rewritten to the same text and the same map, so nothing tells which one it was.
   */
  lemma OneOutputTwoTexts(d: Deriver, name: string, piiType: PiiType)
    requires HexDigest(d) && name != ""
    ensures var t := DeriveToken(d, name, piiType);
      var text1, spans1 := TwoValues(t, name), SpansOfTwo(t, name, piiType, false);
      var text2, spans2 := TwoValues(name, name), SpansOfTwo(name, name, piiType, true);
      && Replaceable(text1, spans1) && Replaceable(text2, spans2)
      && AllExact(text1, spans1) && AllExact(text2, spans2)
      && NoSharedToken(d, spans1) && NoSharedToken(d, spans2)
      && Rewrite(d, text1, spans1, 0) == Rewrite(d, text2, spans2, 0)
      && TokenMap(d, spans1) == TokenMap(d, spans2)
      && (name != t ==> text1 != text2)
  {
    var t := DeriveToken(d, name, piiType);
    DerivedIsToken(d, name, piiType);
    TokenIsNotEmpty(t);
    TwoAreExact(t, name, piiType, false);
    TwoAreExact(name, name, piiType, true);
    RewriteSecond(d, t, name, piiType);
    RewriteBoth(d, name, name, piiType);
    OneValue(d, SpansOfTwo(t, name, piiType, false), name);
    OneValue(d, SpansOfTwo(name, name, piiType, true), name);
    if TwoValues(t, name) == TwoValues(name, name) {
      SameFirst(t, name, name);
    }
  }

  /** For an e-mail address given twice, and a text that quotes its token, that is the case. */
  lemma OneEmailTwoTexts(d: Deriver)
    requires HexDigest(d)
    ensures var email := "bob@example.com"; var t := DeriveToken(d, email, EMAIL);
      var text1, spans1 := TwoValues(t, email), SpansOfTwo(t, email, EMAIL, false);
      var text2, spans2 := TwoValues(email, email), SpansOfTwo(email, email, EMAIL, true);
      && text2 == "bob@example.com bob@example.com" && text1 != text2
      && spans2 == [Span(email, EMAIL, 0, 15), Span(email, EMAIL, 16, 31)]
      && AllExact(text1, spans1) && AllExact(text2, spans2)
      && Replaceable(text1, spans1) && Replaceable(text2, spans2)
      && Rewrite(d, text1, spans1, 0) == Rewrite(d, text2, spans2, 0)
      && TokenMap(d, spans1) == TokenMap(d, spans2)
  {
    OneOutputTwoTexts(d, "bob@example.com", EMAIL);
    NoEmailToken(d, "bob@example.com", EMAIL);
    TwoEmails("bob@example.com");
  }

  lemma TwoEmails(email: string)
    requires email == "bob@example.com"
    ensures TwoValues(email, email) == "bob@example.com bob@example.com" && |email| == 15
  {
  }

  /** A token begins with a capital. */
  lemma NoEmailToken(d: Deriver, raw: string, piiType: PiiType)
    requires |raw| > 0 && raw[0] == 'b'
    ensures DeriveToken(d, raw, piiType) != raw
  {
    assert DeriveToken(d, raw, piiType)[0] == TypeName(piiType)[0];
  }

  lemma OneValue(d: Deriver, spans: seq<Span>, name: string)
    requires forall i :: 0 <= i < |spans| ==> spans[i].raw == name
    ensures NoSharedToken(d, spans)
  {
  }

  lemma SameFirst(a: string, b: string, c: string)
    requires TwoValues(a, c) == TwoValues(b, c)
    ensures a == b
  {
    assert |a| == |b| && TwoValues(a, c)[..|a|] == a && TwoValues(b, c)[..|b|] == b;
  }

  /** Of two spellings of one value the second one is lost: the first takes its place. */
  lemma SecondSpellingIsLost(d: Deriver, a: string, b: string, piiType: PiiType)
    requires HexDigest(d) && a != "" && b != "" && Canonicalise(d, a) == Canonicalise(d, b)
    ensures var text, spans := TwoValues(a, b), SpansOfTwo(a, b, piiType, true);
      && Replaceable(text, spans) && AllExact(text, spans)
      && Substitute(Rewrite(d, text, spans, 0), TokenMap(d, spans)) == TwoValues(a, a)
  {
    var t := DeriveToken(d, a, piiType);
    TwoAreExact(a, b, piiType, true);
    RewriteBoth(d, a, b, piiType);
    MapOfTokens(d, SpansOfTwo(a, b, piiType, true));
    SubstituteTwo(t, t, TokenMap(d, SpansOfTwo(a, b, piiType, true)));
  }

  /** A value that is its own token comes back although it also occurs between the spans. */
  lemma RestoredByChance(d: Deriver, t: string, piiType: PiiType)
    requires HexDigest(d) && t != "" && DeriveToken(d, t, piiType) == t
    ensures var text, spans := TwoValues(t, t), SpansOfTwo(t, t, piiType, false);
      && Replaceable(text, spans) && AllExact(text, spans)
      && Substitute(Rewrite(d, text, spans, 0), TokenMap(d, spans)) == text
      && !GapsClean(text, spans, 0, TokenMap(d, spans))
  {
    var text, spans := TwoValues(t, t), SpansOfTwo(t, t, piiType, false);
    TwoAreExact(t, t, piiType, false);
    RewriteSecond(d, t, t, piiType);
    MapOfTokens(d, spans);
    SubstituteTwo(t, t, TokenMap(d, spans));
    assert t <= text[0..spans[0].start][0..];
  }

  /** Two spellings of one value share a token, so a text with both anywhere does not come back. */
  lemma SpellingsShareToken(d: Deriver, text: string, spans: seq<Span>, i: nat, j: nat)
    requires HexDigest(d) && Replaceable(text, spans) && AllExact(text, spans) && i < |spans| && j < |spans|
    requires spans[i].piiType == spans[j].piiType && spans[i].raw != spans[j].raw
    requires Canonicalise(d, spans[i].raw) == Canonicalise(d, spans[j].raw) && Distinguishable(d, spans)
    ensures Substitute(Rewrite(d, text, spans, 0), TokenMap(d, spans)) != text
  {
    assert TokenOf(d, spans[i]) == TokenOf(d, spans[j]);
    TokensRestoreExactly(d, text, spans);
  }

  // ---------------------------------------------------------------------------
  // The identity store
  // ---------------------------------------------------------------------------

  function StoreKey(tenantId: string, token: string): string {
    tenantId + ":" + token
  }

  /** Keys of different (tenant, token) pairs differ, because tokens contain no colon. */
  lemma KeysDoNotAlias(tenant1: string, token1: string, tenant2: string, token2: string)
    requires NoColon(token1) && NoColon(token2)
    ensures StoreKey(tenant1, token1) == StoreKey(tenant2, token2) <==> tenant1 == tenant2 && token1 == token2
  {
    var k1, k2 := StoreKey(tenant1, token1), StoreKey(tenant2, token2);
    assert k1[|tenant1|] == ':' && k2[|tenant2|] == ':';
    assert forall i :: |tenant1| < i < |k1| ==> k1[i] == token1[i - |tenant1| - 1];
    assert forall i :: |tenant2| < i < |k2| ==> k2[i] == token2[i - |tenant2| - 1];
    if k1 == k2 {
      assert |tenant1| == |tenant2|;
      assert tenant1 == k1[..|tenant1|] && tenant2 == k2[..|tenant2|];
      assert token1 == k1[|tenant1| + 1..] && token2 == k2[|tenant2| + 1..];
    }
  }

  /** With a colon in the token two tenants' keys can coincide. */
  lemma ColonAliases()
    ensures StoreKey("a", "b:c") == StoreKey("a:b", "c")
  {
    assert StoreKey("a", "b:c") == "a:b:c" == StoreKey("a:b", "c");
  }

  /** The tenant and the token without colon whose key it is: the key cut at its last colon. */
  function Owner(tenantId: string, token: string): (owner: (string, string))
    ensures NoColon(owner.1)
    decreases |token|
  {
    var k := ColonIndex(token);
    if k == |token| then
      assert token[..k] == token;
      (tenantId, token)
    else Owner(StoreKey(tenantId, token[..k]), token[k + 1..])
  }

  lemma OwnerOfPlain(tenantId: string, token: string)
    requires NoColon(token)
    ensures Owner(tenantId, token) == (tenantId, token)
  {
  }

  lemma {:induction false} OwnerHasKey(tenantId: string, token: string)
    ensures var owner := Owner(tenantId, token); StoreKey(owner.0, owner.1) == StoreKey(tenantId, token)
    decreases |token|
  {
    var k := ColonIndex(token);
    if k < |token| {
      OwnerHasKey(StoreKey(tenantId, token[..k]), token[k + 1..]);
      CutKey(tenantId, token, k);
    }
  }

  lemma CutKey(tenantId: string, token: string, k: nat)
    requires k < |token| && token[k] == ':'
    ensures StoreKey(StoreKey(tenantId, token[..k]), token[k + 1..]) == StoreKey(tenantId, token)
  {
    assert token == token[..k] + ":" + token[k + 1..];
  }

  /** Two pairs have one key exactly when they have one owner. */
  lemma KeysAliasExactly(tenant1: string, token1: string, tenant2: string, token2: string)
    ensures StoreKey(tenant1, token1) == StoreKey(tenant2, token2) <==> Owner(tenant1, token1) == Owner(tenant2, token2)
  {
    var o1, o2 := Owner(tenant1, token1), Owner(tenant2, token2);
    OwnerHasKey(tenant1, token1);
    OwnerHasKey(tenant2, token2);
    KeysDoNotAlias(o1.0, o1.1, o2.0, o2.1);
  }

  /** The flat map holds exactly the registered entries. */
  ghost predicate Holds(store: map<string, string>, entries: map<(string, string), string>) {
    && (forall e :: e in entries ==> NoColon(e.1))
    && (forall e :: e in entries ==> StoreKey(e.0, e.1) in store && store[StoreKey(e.0, e.1)] == entries[e])
    && (forall k :: k in store ==> exists e :: e in entries && StoreKey(e.0, e.1) == k)
  }

  lemma LookupIsExact(
      store: map<string, string>, entries: map<(string, string), string>, tenantId: string, token: string)
    requires Holds(store, entries) && NoColon(token)
    ensures StoreKey(tenantId, token) in store <==> (tenantId, token) in entries
    ensures (tenantId, token) in entries ==> store[StoreKey(tenantId, token)] == entries[(tenantId, token)]
  {
    var key := StoreKey(tenantId, token);
    if key in store {
      var e :| e in entries && StoreKey(e.0, e.1) == key;
      KeysDoNotAlias(e.0, e.1, tenantId, token);
      assert e == (tenantId, token);
    }
  }

  lemma RegisterKeepsHolding(store: map<string, string>, entries: map<(string, string), string>,
                             tenantId: string, token: string, realValue: string)
    requires Holds(store, entries) && NoColon(token)
    ensures Holds(store[StoreKey(tenantId, token) := realValue], entries[(tenantId, token) := realValue])
  {
    var key, added := StoreKey(tenantId, token), (tenantId, token);
    var store', entries' := store[key := realValue], entries[added := realValue];
    forall e | e in entries'
      ensures StoreKey(e.0, e.1) in store' && store'[StoreKey(e.0, e.1)] == entries'[e]
    {
      KeysDoNotAlias(e.0, e.1, tenantId, token);
      if e.0 == tenantId && e.1 == token { assert e == added; }
    }
    forall k | k in store'
      ensures exists e :: e in entries' && StoreKey(e.0, e.1) == k
    {
      if k == key {
        assert added in entries' && StoreKey(added.0, added.1) == k;
      } else {
        var e :| e in entries && StoreKey(e.0, e.1) == k;
        assert e in entries';
      }
    }
  }

  class InMemoryIdentityStore {
    var store: map<string, string>
    /** What was registered, by tenant and token. */
    ghost var entries: map<(string, string), string>

    ghost predicate Valid()
      reads this
    {
      Holds(store, entries)
    }

    constructor ()
      ensures Valid() && entries == map[]
    {
      store, entries := map[], map[];
    }

    /** Fails on a collision, and only then. A token with a colon counts for its key's owner. */
    method Register(tenantId: string, token: string, realValue: string) returns (ok: bool)
      requires Valid()
      modifies this
      ensures Valid()
      ensures ok <==> Owner(tenantId, token) !in old(entries) || old(entries)[Owner(tenantId, token)] == realValue
      ensures entries == if ok then old(entries)[Owner(tenantId, token) := realValue] else old(entries)
    {
      var key := StoreKey(tenantId, token);
      ghost var owner := Owner(tenantId, token);
      OwnerHasKey(tenantId, token);
      LookupIsExact(store, entries, owner.0, owner.1);
      if key in store && store[key] != realValue {
        return false;
      }
      RegisterKeepsHolding(store, entries, owner.0, owner.1, realValue);
      store := store[key := realValue];
      entries := entries[owner := realValue];
      return true;
    }

    /** The value registered for this tenant and token; with a colon in the token, its key's owner's value. */
    method Lookup(tenantId: string, token: string) returns (r: Option<string>)
      requires Valid()
      ensures r == if Owner(tenantId, token) in entries then Some(entries[Owner(tenantId, token)]) else None
      ensures NoColon(token) ==>
        r == if (tenantId, token) in entries then Some(entries[(tenantId, token)]) else None
    {
      if NoColon(token) { OwnerOfPlain(tenantId, token); }
      OwnerHasKey(tenantId, token);
      LookupIsExact(store, entries, Owner(tenantId, token).0, Owner(tenantId, token).1);
      var key := StoreKey(tenantId, token);
      return if key in store then Some(store[key]) else None;
    }
  }

  // ---------------------------------------------------------------------------
  // The tokeniser
  // ---------------------------------------------------------------------------

  /** The store holds every token of the text for the tenant. */
  ghost predicate Registered(entries: map<(string, string), string>, tenantId: string, tokens: map<string, string>) {
    forall t :: t in tokens ==> (tenantId, t) in entries && entries[(tenantId, t)] == tokens[t]
  }

  /** The token is free for the tenant, or already registered with this very value. */
  ghost predicate Fits(entries: map<(string, string), string>, tenantId: string, token: string, realValue: string) {
    (tenantId, token) in entries ==> entries[(tenantId, token)] == realValue
  }

  /** Some token of the text is already registered for the tenant with another value. */
  ghost predicate Collides(entries: map<(string, string), string>, tenantId: string, tokens: map<string, string>) {
    exists t :: t in tokens && !Fits(entries, tenantId, t, tokens[t])
  }

  /** Earlier entries are untouched, and what is new is this text's. */
  ghost predicate OnlyAdds(before: map<(string, string), string>, after: map<(string, string), string>,
                           tenantId: string, tokens: map<string, string>) {
    && (forall e :: e in before ==> e in after && after[e] == before[e])
    && (forall e :: e in after && e !in before ==> e.0 == tenantId && e.1 in tokens && after[e] == tokens[e.1])
  }

  /** All but the pending tokens are registered. */
  ghost predicate RegisteredSoFar(before: map<(string, string), string>, now: map<(string, string), string>,
                           tenantId: string, tokens: map<string, string>, pending: set<string>) {
    && OnlyAdds(before, now, tenantId, tokens)
    && forall t :: t in tokens && t !in pending ==> (tenantId, t) in now && now[(tenantId, t)] == tokens[t]
  }

  lemma RegisteringProgresses(before: map<(string, string), string>, now: map<(string, string), string>,
                              tenantId: string, tokens: map<string, string>, pending: set<string>, token: string)
    requires RegisteredSoFar(before, now, tenantId, tokens, pending) && token in tokens
    requires Fits(now, tenantId, token, tokens[token])
    ensures RegisteredSoFar(before, now[(tenantId, token) := tokens[token]], tenantId, tokens, pending - {token})
  {
  }

  /** A token that does not fit now did not fit before either: it is not one of this text's additions. */
  lemma RefusalIsCollision(before: map<(string, string), string>, now: map<(string, string), string>,
                           tenantId: string, tokens: map<string, string>, pending: set<string>, token: string)
    requires RegisteredSoFar(before, now, tenantId, tokens, pending) && token in tokens
    requires !Fits(now, tenantId, token, tokens[token])
    ensures Collides(before, tenantId, tokens)
  {
    assert !Fits(before, tenantId, token, tokens[token]);
  }

  lemma FinishedIsRegistered(before: map<(string, string), string>, now: map<(string, string), string>,
                             tenantId: string, tokens: map<string, string>)
    requires RegisteredSoFar(before, now, tenantId, tokens, {})
    ensures Registered(now, tenantId, tokens) && !Collides(before, tenantId, tokens)
  {
    forall t | t in tokens ensures Fits(before, tenantId, t, tokens[t]) {
      assert (tenantId, t) in now && now[(tenantId, t)] == tokens[t];
    }
  }

  class Tokeniser {
    const tenantId: string
    const deriver: Deriver
    const store: InMemoryIdentityStore

    constructor (tenantId: string, deriver: Deriver, store: InMemoryIdentityStore)
      ensures this.tenantId == tenantId && this.deriver == deriver && this.store == store
    {
      this.tenantId := tenantId;
      this.deriver := deriver;
      this.store := store;
    }

    /**
     Rewrites the text and registers every token, unless one of them is already registered
     with another value.
     */
    method Tokenise(text: string, spans: seq<Span>) returns (r: Result<(string, map<string, string>), string>)
      requires store.Valid() && HexDigest(deriver) && Replaceable(text, spans)
      modifies store
      ensures store.Valid()
      ensures r.Failure? == Collides(old(store.entries), tenantId, TokenMap(deriver, spans))
      ensures r.Success? ==> r.value == (Rewrite(deriver, text, spans, 0), TokenMap(deriver, spans))
      ensures r.Success? ==> Registered(store.entries, tenantId, TokenMap(deriver, spans))
      ensures OnlyAdds(old(store.entries), store.entries, tenantId, TokenMap(deriver, spans))
    {
      var anonymised, tokens := TokeniseSpans(deriver, text, spans);
      TokensHaveNoColon(deriver, spans);
      var ok := RegisterAll(tokens);
      if !ok {
        return Failure("TokenCollisionError");
      }
      return Success((anonymised, tokens));
    }

    /** Registers the entries of a map, in some order, up to the first collision. */
    method RegisterAll(tokens: map<string, string>) returns (ok: bool)
      requires store.Valid() && forall t :: t in tokens ==> NoColon(t)
      modifies store
      ensures store.Valid()
      ensures ok != Collides(old(store.entries), tenantId, tokens)
      ensures ok ==> Registered(store.entries, tenantId, tokens)
      ensures OnlyAdds(old(store.entries), store.entries, tenantId, tokens)
    {
      ghost var before := store.entries;
      var pending := tokens.Keys;
      while pending != {}
        invariant store.Valid() && pending <= tokens.Keys
        invariant RegisteredSoFar(before, store.entries, tenantId, tokens, pending)
        decreases pending
      {
        var token :| token in pending;
        ghost var now := store.entries;
        OwnerOfPlain(tenantId, token);
        ok := store.Register(tenantId, token, tokens[token]);
        if !ok {
          RefusalIsCollision(before, now, tenantId, tokens, pending, token);
          return;
        }
        RegisteringProgresses(before, now, tenantId, tokens, pending, token);
        pending := pending - {token};
      }
      FinishedIsRegistered(before, store.entries, tenantId, tokens);
      ok := true;
    }
  }

  lemma TokensHaveNoColon(d: Deriver, spans: seq<Span>)
    requires HexDigest(d)
    ensures forall t :: t in TokenMap(d, spans) ==> NoColon(t)
  {
    MapHoldsTokens(d, spans);
    forall t | t in TokenMap(d, spans) ensures NoColon(t) {
      assert ComesFrom(d, spans, t);
      var i :| IsSource(d, spans, t, i);
      DerivedTokenHasNoColon(d, spans[i].raw, spans[i].piiType);
    }
  }
}
