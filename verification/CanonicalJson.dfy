/**
 The canonical JSON printer that the audit hash is computed over.

 Strings are printed as `JSON.stringify` prints them: section 7 of RFC 8259, with lone
 surrogates escaped. Two values print alike exactly when they are equal with objects read
 as finite maps.
 */
module CanonicalJson {
  import opened Lex

  /**
   A JSON value as the program holds it. A finite number is identified by the text that
   JavaScript prints for it; the values NaN, Infinity and -Infinity are `NonFinite`. The
   members of an object come in insertion order.
   */
  datatype Json =
    | Null
    | Bool(b: bool)
    | Num(text: Utf16)
    | NonFinite
    | Str(s: Utf16)
    | Arr(items: seq<Json>)
    | Obj(members: seq<Member>)

  datatype Member = Member(key: Utf16, value: Json)

  const QUOTE: CodeUnit := 34
  const BACKSLASH: CodeUnit := 92
  const COMMA: CodeUnit := 44
  const COLON: CodeUnit := 58
  const OPEN_BRACKET: CodeUnit := 91
  const CLOSE_BRACKET: CodeUnit := 93
  const OPEN_BRACE: CodeUnit := 123
  const CLOSE_BRACE: CodeUnit := 125

  const NULL_TEXT: Utf16 := [110, 117, 108, 108]
  const TRUE_TEXT: Utf16 := [116, 114, 117, 101]
  const FALSE_TEXT: Utf16 := [102, 97, 108, 115, 101]

  function Keys(members: seq<Member>): (keys: seq<Utf16>)
    ensures |keys| == |members|
    ensures forall i :: 0 <= i < |keys| ==> keys[i] == members[i].key
  {
    seq(|members|, i requires 0 <= i < |members| => members[i].key)
  }

  /** Digits, signs, point and exponent: the characters of section 6 of RFC 8259. */
  predicate IsNumberUnit(u: CodeUnit) {
    48 <= u <= 57 || u == 45 || u == 43 || u == 46 || u == 101 || u == 69
  }

  predicate AreDigits(text: Utf16) {
    text != [] && forall i :: 0 <= i < |text| ==> 48 <= text[i] <= 57
  }

  predicate IsFraction(text: Utf16) {
    text == [] || (text[0] == 46 && AreDigits(text[1..]))
  }

  predicate IsExponent(text: Utf16) {
    text == [] ||
    (|text| > 1 && (text[0] == 101 || text[0] == 69) &&
     (AreDigits(text[1..]) || ((text[1] == 43 || text[1] == 45) && AreDigits(text[2..]))))
  }

  /** The grammar of section 6 of RFC 8259: a sign, digits without a leading zero, fraction and exponent. */
  ghost predicate IsNumberText(text: Utf16) {
    exists sign: Utf16, whole: Utf16, fraction: Utf16, exponent: Utf16 ::
      && (sign == [] || sign == [45])
      && AreDigits(whole) && (|whole| > 1 ==> whole[0] != 48)
      && IsFraction(fraction) && IsExponent(exponent)
      && text == sign + whole + fraction + exponent
  }

  lemma NumberTextUnits(text: Utf16)
    requires IsNumberText(text)
    ensures text != [] && (48 <= text[0] <= 57 || text[0] == 45)
    ensures forall i :: 0 <= i < |text| ==> IsNumberUnit(text[i])
  {
    var sign: Utf16, whole: Utf16, fraction: Utf16, exponent: Utf16 :|
      && (sign == [] || sign == [45])
      && AreDigits(whole) && (|whole| > 1 ==> whole[0] != 48)
      && IsFraction(fraction) && IsExponent(exponent)
      && text == sign + whole + fraction + exponent;
    FractionUnits(fraction);
    ExponentUnits(exponent);
  }

  lemma FractionUnits(text: Utf16)
    requires IsFraction(text)
    ensures forall i :: 0 <= i < |text| ==> IsNumberUnit(text[i])
  {
    forall i | 0 < i < |text| ensures IsNumberUnit(text[i]) {
      assert text[i] == text[1..][i - 1];
    }
  }

  lemma ExponentUnits(text: Utf16)
    requires IsExponent(text)
    ensures forall i :: 0 <= i < |text| ==> IsNumberUnit(text[i])
  {
    forall i | 1 < i < |text| ensures IsNumberUnit(text[i]) {
      assert text[i] == text[1..][i - 1] == text[2..][i - 2];
    }
    assert |text| > 1 ==> text[1] == text[1..][0];
  }

  /** Object keys are distinct and number texts are number texts, at every depth. */
  ghost predicate WellFormed(v: Json) {
    match v
    case Num(text) => IsNumberText(text)
    case Arr(items) => forall i :: 0 <= i < |items| ==> WellFormed(items[i])
    case Obj(members) =>
      && Distinct(Keys(members))
      && forall i :: 0 <= i < |members| ==> WellFormed(members[i].value)
    case _ => true
  }

  /** The position of the member with key `k`. */
  function Find(members: seq<Member>, k: Utf16): (i: nat)
    requires k in Keys(members)
    ensures i < |members| && members[i].key == k
  {
    if members[0].key == k then 0
    else
      assert Keys(members)[1..] == Keys(members[1..]);
      assert k in Keys(members)[1..];
      1 + Find(members[1..], k)
  }

  // ---------------------------------------------------------------------------
  // What it means for two values to be equal, without printing
  // ---------------------------------------------------------------------------

  predicate IsNullish(v: Json) {
    v.Null? || v.NonFinite?
  }

  /** Equality with objects read as finite maps, and a non-finite number read as null. */
  ghost predicate Same(a: Json, b: Json)
    decreases a
  {
    match a
    case Null => IsNullish(b)
    case NonFinite => IsNullish(b)
    case Arr(items) =>
      && b.Arr? && |items| == |b.items|
      && forall i :: 0 <= i < |items| ==> Same(items[i], b.items[i])
    case Obj(members) =>
      && b.Obj?
      && (forall k :: k in Keys(members) <==> k in Keys(b.members))
      && forall k :: k in Keys(members) && k in Keys(b.members) ==>
        Same(members[Find(members, k)].value, b.members[Find(b.members, k)].value)
    case _ => a == b
  }

  // ---------------------------------------------------------------------------
  // Strings
  // ---------------------------------------------------------------------------

  predicate IsHighSurrogate(u: CodeUnit) { 0xD800 <= u <= 0xDBFF }
  predicate IsLowSurrogate(u: CodeUnit) { 0xDC00 <= u <= 0xDFFF }

  predicate StartsWithPair(s: Utf16) {
    |s| >= 2 && IsHighSurrogate(s[0]) && IsLowSurrogate(s[1])
  }

  function HexDigit(d: nat): CodeUnit
    requires d < 16
  {
    if d < 10 then 48 + d else 87 + d
  }

  function UnicodeEscape(u: CodeUnit): Utf16 {
    [BACKSLASH, 117, HexDigit(u / 4096), HexDigit(u / 256 % 16), HexDigit(u / 16 % 16), HexDigit(u % 16)]
  }

  /** How one code unit that is not the start of a surrogate pair is printed. */
  function Escape(u: CodeUnit): Utf16 {
    if u == QUOTE || u == BACKSLASH then [BACKSLASH, u]
    else if u == 8 then [BACKSLASH, 98]
    else if u == 9 then [BACKSLASH, 116]
    else if u == 10 then [BACKSLASH, 110]
    else if u == 12 then [BACKSLASH, 102]
    else if u == 13 then [BACKSLASH, 114]
    else if u < 32 || IsHighSurrogate(u) || IsLowSurrogate(u) then UnicodeEscape(u)
    else [u]
  }

  /** The number of code units that the first printed token stands for. */
  function TokenWidth(s: Utf16): (n: nat)
    requires s != []
    ensures 1 <= n <= |s|
  {
    if StartsWithPair(s) then 2 else 1
  }

  function Token(s: Utf16): (t: Utf16)
    requires s != []
  {
    if StartsWithPair(s) then s[..2] else Escape(s[0])
  }

  function Body(s: Utf16): Utf16
    decreases |s|
  {
    if s == [] then [] else Token(s) + Body(s[TokenWidth(s)..])
  }

  /** `JSON.stringify` of a string. */
  function Quote(s: Utf16): Utf16 {
    [QUOTE] + Body(s) + [QUOTE]
  }

  // ---------------------------------------------------------------------------
  // The printer
  // ---------------------------------------------------------------------------

  function Print(v: Json): Utf16
    requires WellFormed(v)
    decreases v, 1, 0
  {
    match v
    case Null => NULL_TEXT
    case NonFinite => NULL_TEXT
    case Bool(b) => if b then TRUE_TEXT else FALSE_TEXT
    case Num(text) => text
    case Str(s) => Quote(s)
    case Arr(items) => [OPEN_BRACKET] + PrintItems(items) + [CLOSE_BRACKET]
    case Obj(members) =>
      var keys := SortKeys(Keys(members));
      SortKeysKeeps(Keys(members));
      [OPEN_BRACE] + PrintMembers(members, keys) + [CLOSE_BRACE]
  }

  function PrintItems(items: seq<Json>): Utf16
    requires forall i :: 0 <= i < |items| ==> WellFormed(items[i])
    decreases items, 0, 0
  {
    if items == [] then []
    else if |items| == 1 then Print(items[0])
    else Print(items[0]) + [COMMA] + PrintItems(items[1..])
  }

  function PrintMember(members: seq<Member>, k: Utf16): Utf16
    requires forall i :: 0 <= i < |members| ==> WellFormed(members[i].value)
    requires k in Keys(members)
    decreases members, 0, 0
  {
    Quote(k) + [COLON] + Print(members[Find(members, k)].value)
  }

  function PrintMembers(members: seq<Member>, keys: seq<Utf16>): Utf16
    requires forall i :: 0 <= i < |members| ==> WellFormed(members[i].value)
    requires forall k :: k in keys ==> k in Keys(members)
    decreases members, 0, 1 + |keys|
  {
    if keys == [] then []
    else if |keys| == 1 then PrintMember(members, keys[0])
    else PrintMember(members, keys[0]) + [COMMA] + PrintMembers(members, keys[1..])
  }

  // ---------------------------------------------------------------------------
  // No printed string is the start of another
  // ---------------------------------------------------------------------------

  /** A shared separator cancels. */
  lemma Cancel(u: CodeUnit, x: Utf16, y: Utf16)
    requires [u] + x == [u] + y
    ensures x == y
  {
    assert x == ([u] + x)[1..] && y == ([u] + y)[1..];
  }

  lemma HexDigitInjective(d: nat, e: nat)
    requires d < 16 && e < 16 && HexDigit(d) == HexDigit(e)
    ensures d == e
  {
  }

  lemma UnicodeEscapeInjective(u: CodeUnit, w: CodeUnit)
    requires UnicodeEscape(u) == UnicodeEscape(w)
    ensures u == w
  {
    var x, y := UnicodeEscape(u), UnicodeEscape(w);
    assert x[2] == y[2] && x[3] == y[3] && x[4] == y[4] && x[5] == y[5];
    HexDigitInjective(u / 4096, w / 4096);
    HexDigitInjective(u / 256 % 16, w / 256 % 16);
    HexDigitInjective(u / 16 % 16, w / 16 % 16);
    HexDigitInjective(u % 16, w % 16);
    FromNibbles(u);
    FromNibbles(w);
  }

  lemma FromNibbles(u: CodeUnit)
    ensures u == u / 4096 * 4096 + u / 256 % 16 * 256 + u / 16 % 16 * 16 + u % 16
  {
    assert u / 256 == u / 4096 * 16 + u / 256 % 16 by { assert u / 4096 == u / 256 / 16; }
    assert u / 16 == u / 256 * 16 + u / 16 % 16 by { assert u / 256 == u / 16 / 16; }
  }

  /** How a printed token starts, and how long that says it is. */
  lemma TokenShape(s: Utf16)
    requires s != []
    ensures |Token(s)| >= 1 && Token(s)[0] != QUOTE
    ensures Token(s)[0] == BACKSLASH ==> !StartsWithPair(s) && |Token(s)| >= 2
    ensures Token(s)[0] == BACKSLASH ==> |Token(s)| == if Token(s)[1] == 117 then 6 else 2
    ensures Token(s)[0] != BACKSLASH ==> Token(s) == s[..TokenWidth(s)]
    ensures Token(s)[0] != BACKSLASH ==> |Token(s)| == if IsHighSurrogate(Token(s)[0]) then 2 else 1
  {
  }

  lemma EscapeInjective(u: CodeUnit, w: CodeUnit)
    requires Escape(u) == Escape(w)
    ensures u == w
  {
    if |Escape(u)| == 6 {
      UnicodeEscapeInjective(u, w);
    } else if |Escape(u)| == 2 {
      assert Escape(u)[1] == Escape(w)[1];
    } else {
      assert Escape(u)[0] == Escape(w)[0];
    }
  }

  lemma TokenPrefixFree(s: Utf16, t: Utf16, x: Utf16, y: Utf16)
    requires s != [] && t != [] && Token(s) + x == Token(t) + y
    ensures Token(s) == Token(t) && x == y
    ensures TokenWidth(s) == TokenWidth(t) && s[..TokenWidth(s)] == t[..TokenWidth(t)]
  {
    TokenShape(s);
    TokenShape(t);
    var all := Token(s) + x;
    assert all[0] == Token(s)[0] == Token(t)[0];
    if all[0] == BACKSLASH {
      assert all[1] == Token(s)[1] == Token(t)[1];
    }
    assert Token(s) == all[..|Token(s)|] && x == all[|Token(s)|..];
    assert Token(t) == all[..|Token(t)|] && y == all[|Token(t)|..];
    if all[0] == BACKSLASH {
      EscapeInjective(s[0], t[0]);
    }
  }

  /** A closing quote is no part of a printed string body. */
  lemma BodyHead(s: Utf16, x: Utf16)
    ensures s == [] ==> Body(s) + [QUOTE] + x == [QUOTE] + x
    ensures s != [] ==> (Body(s) + [QUOTE] + x)[0] != QUOTE
  {
    if s != [] {
      TokenShape(s);
      BodyUnfold(s, x);
    }
  }

  lemma BodyUnfold(s: Utf16, x: Utf16)
    requires s != []
    ensures Body(s) + [QUOTE] + x == Token(s) + (Body(s[TokenWidth(s)..]) + [QUOTE] + x)
  {
  }

  lemma {:induction false} BodyPrefixFree(s: Utf16, t: Utf16, x: Utf16, y: Utf16)
    requires Body(s) + [QUOTE] + x == Body(t) + [QUOTE] + y
    ensures s == t && x == y
    decreases |s|
  {
    BodyHead(s, x);
    BodyHead(t, y);
    if s == [] {
      Cancel(QUOTE, x, y);
    } else {
      var s', t' := s[TokenWidth(s)..], t[TokenWidth(t)..];
      BodyUnfold(s, x);
      BodyUnfold(t, y);
      TokenPrefixFree(s, t, Body(s') + [QUOTE] + x, Body(t') + [QUOTE] + y);
      BodyPrefixFree(s', t', x, y);
      assert s == s[..TokenWidth(s)] + s' && t == t[..TokenWidth(t)] + t';
    }
  }

  lemma QuoteUnfold(s: Utf16, x: Utf16)
    ensures Quote(s) + x == [QUOTE] + (Body(s) + [QUOTE] + x)
  {
  }

  lemma QuotePrefixFree(s: Utf16, t: Utf16, x: Utf16, y: Utf16)
    requires Quote(s) + x == Quote(t) + y
    ensures s == t && x == y
  {
    QuoteUnfold(s, x);
    QuoteUnfold(t, y);
    Cancel(QUOTE, Body(s) + [QUOTE] + x, Body(t) + [QUOTE] + y);
    BodyPrefixFree(s, t, x, y);
  }

  // ---------------------------------------------------------------------------
  // No printed value is the start of another, given where values stop
  // ---------------------------------------------------------------------------

  /** A value is followed by a comma, a closing bracket or brace, or nothing. */
  predicate Stops(x: Utf16) {
    x == [] || x[0] == COMMA || x[0] == CLOSE_BRACKET || x[0] == CLOSE_BRACE
  }

  /** The first code unit tells the kind of value. */
  lemma PrintHead(v: Json)
    requires WellFormed(v)
    ensures Print(v) != []
    ensures IsNullish(v) <==> Print(v)[0] == 110
    ensures v == Bool(true) <==> Print(v)[0] == 116
    ensures v == Bool(false) <==> Print(v)[0] == 102
    ensures v.Str? <==> Print(v)[0] == QUOTE
    ensures v.Arr? <==> Print(v)[0] == OPEN_BRACKET
    ensures v.Obj? <==> Print(v)[0] == OPEN_BRACE
    ensures Print(v)[0] != CLOSE_BRACKET && Print(v)[0] != CLOSE_BRACE
  {
    if v.Num? { NumberTextUnits(v.text); }
  }

  lemma NumberDoesNotStop(a: Utf16, x: Utf16)
    requires a != [] && IsNumberUnit(a[0])
    ensures !Stops(a + x)
  {
    assert (a + x)[0] == a[0];
  }

  lemma {:induction false} NumberPrefixFree(a: Utf16, b: Utf16, x: Utf16, y: Utf16)
    requires forall i :: 0 <= i < |a| ==> IsNumberUnit(a[i])
    requires forall i :: 0 <= i < |b| ==> IsNumberUnit(b[i])
    requires Stops(x) && Stops(y) && a + x == b + y
    ensures a == b && x == y
  {
    var all := a + x;
    if a == [] {
      assert all == x;
      if b != [] { NumberDoesNotStop(b, y); }
      assert all == y;
    } else if b == [] {
      assert b + y == y;
      NumberDoesNotStop(a, x);
    } else {
      assert all[1..] == a[1..] + x == b[1..] + y;
      assert all[0] == a[0] == b[0];
      NumberPrefixFree(a[1..], b[1..], x, y);
      assert a == [a[0]] + a[1..] && b == [b[0]] + b[1..];
    }
  }

  lemma SameLengthPrefix(a: Utf16, b: Utf16, x: Utf16, y: Utf16)
    requires |a| == |b| && a + x == b + y
    ensures a == b && x == y
  {
    assert a == (a + x)[..|a|] && b == (b + y)[..|a|];
    assert x == (a + x)[|a|..] && y == (b + y)[|a|..];
  }

  lemma {:induction false} PrintPrefixFree(a: Json, b: Json, x: Utf16, y: Utf16)
    requires WellFormed(a) && WellFormed(b) && Stops(x) && Stops(y)
    requires Print(a) + x == Print(b) + y
    ensures Same(a, b) && x == y
    decreases a, 1, 0
  {
    PrintHead(a);
    PrintHead(b);
    assert Print(a)[0] == (Print(a) + x)[0] == Print(b)[0];
    match a {
      case Null => SameLengthPrefix(Print(a), Print(b), x, y);
      case NonFinite => SameLengthPrefix(Print(a), Print(b), x, y);
      case Bool(_) => SameLengthPrefix(Print(a), Print(b), x, y);
      case Num(text) =>
        NumberTextUnits(text);
        NumberTextUnits(b.text);
        NumberPrefixFree(text, b.text, x, y);
      case Str(s) => QuotePrefixFree(s, b.s, x, y);
      case Arr(items) =>
        Unwrap(OPEN_BRACKET, PrintItems(items), PrintItems(b.items), CLOSE_BRACKET, x, y);
        ItemsPrefixFree(items, b.items, x, y);
      case Obj(members) =>
        var ka, kb := SortKeys(Keys(members)), SortKeys(Keys(b.members));
        SortKeysKeeps(Keys(members));
        SortKeysKeeps(Keys(b.members));
        Unwrap(OPEN_BRACE, PrintMembers(members, ka), PrintMembers(b.members, kb), CLOSE_BRACE, x, y);
        MembersPrefixFree(members, ka, b.members, kb, x, y);
    }
  }

  lemma Unwrap(open: CodeUnit, p: Utf16, q: Utf16, close: CodeUnit, x: Utf16, y: Utf16)
    requires [open] + p + [close] + x == [open] + q + [close] + y
    ensures p + [close] + x == q + [close] + y
  {
    assert p + [close] + x == ([open] + p + [close] + x)[1..];
    assert q + [close] + y == ([open] + q + [close] + y)[1..];
  }

  /** What follows the first entry of a list that is closed by `close`. */
  function AfterEntry(more: bool, rest: Utf16, close: CodeUnit, x: Utf16): Utf16 {
    if more then [COMMA] + (rest + [close] + x) else [close] + x
  }

  lemma AfterEntryPrefixFree(m: bool, p: Utf16, n: bool, q: Utf16, close: CodeUnit, x: Utf16, y: Utf16)
    requires close != COMMA
    requires AfterEntry(m, p, close, x) == AfterEntry(n, q, close, y)
    ensures m == n
    ensures if m then p + [close] + x == q + [close] + y else x == y
  {
    var all := AfterEntry(m, p, close, x);
    assert all[0] == if m then COMMA else close;
    assert all[0] == if n then COMMA else close;
    assert all[1..] == if m then p + [close] + x else x;
    assert all[1..] == if n then q + [close] + y else y;
  }

  lemma PrintItemsStep(items: seq<Json>)
    requires forall i :: 0 <= i < |items| ==> WellFormed(items[i])
    requires items != []
    ensures PrintItems(items) ==
      if |items| > 1 then Print(items[0]) + [COMMA] + PrintItems(items[1..]) else Print(items[0])
  {
  }

  lemma ItemsUnfold(items: seq<Json>, x: Utf16)
    requires forall i :: 0 <= i < |items| ==> WellFormed(items[i])
    requires items != []
    ensures PrintItems(items) + [CLOSE_BRACKET] + x
         == Print(items[0]) + AfterEntry(|items| > 1, PrintItems(items[1..]), CLOSE_BRACKET, x)
  {
    PrintItemsStep(items);
    RegroupItem(PrintItems(items), Print(items[0]), |items| > 1, PrintItems(items[1..]), CLOSE_BRACKET, x);
  }

  lemma RegroupItem(all: Utf16, p: Utf16, more: bool, rest: Utf16, close: CodeUnit, x: Utf16)
    requires all == if more then p + [COMMA] + rest else p
    ensures all + [close] + x == p + AfterEntry(more, rest, close, x)
  {
  }

  lemma ItemsHead(items: seq<Json>, x: Utf16)
    requires forall i :: 0 <= i < |items| ==> WellFormed(items[i])
    ensures items == [] ==> PrintItems(items) + [CLOSE_BRACKET] + x == [CLOSE_BRACKET] + x
    ensures items != [] ==> (PrintItems(items) + [CLOSE_BRACKET] + x)[0] != CLOSE_BRACKET
  {
    if items == [] {
      assert PrintItems(items) == [];
      EmptyThen(CLOSE_BRACKET, x);
    } else {
      var p, rest := Print(items[0]), AfterEntry(|items| > 1, PrintItems(items[1..]), CLOSE_BRACKET, x);
      PrintHead(items[0]);
      ItemsUnfold(items, x);
      HeadOf(p, rest);
    }
  }

  lemma EmptyThen(u: CodeUnit, x: Utf16)
    ensures [] + [u] + x == [u] + x
  {
  }

  lemma HeadOf(p: Utf16, rest: Utf16)
    requires p != []
    ensures (p + rest)[0] == p[0]
  {
  }

  lemma {:induction false} ItemsPrefixFree(ia: seq<Json>, ib: seq<Json>, x: Utf16, y: Utf16)
    requires forall i :: 0 <= i < |ia| ==> WellFormed(ia[i])
    requires forall i :: 0 <= i < |ib| ==> WellFormed(ib[i])
    requires PrintItems(ia) + [CLOSE_BRACKET] + x == PrintItems(ib) + [CLOSE_BRACKET] + y
    ensures |ia| == |ib| && x == y
    ensures forall i :: 0 <= i < |ia| ==> Same(ia[i], ib[i])
    decreases ia, 0, 0
  {
    ItemsHead(ia, x);
    ItemsHead(ib, y);
    if ia == [] {
      Cancel(CLOSE_BRACKET, x, y);
    } else {
      var ra, rb := PrintItems(ia[1..]), PrintItems(ib[1..]);
      ItemsUnfold(ia, x);
      ItemsUnfold(ib, y);
      PrintPrefixFree(ia[0], ib[0],
                      AfterEntry(|ia| > 1, ra, CLOSE_BRACKET, x), AfterEntry(|ib| > 1, rb, CLOSE_BRACKET, y));
      AfterEntryPrefixFree(|ia| > 1, ra, |ib| > 1, rb, CLOSE_BRACKET, x, y);
      if |ia| > 1 {
        ItemsPrefixFree(ia[1..], ib[1..], x, y);
      }
      SameCons(ia, ib);
    }
  }

  lemma SameCons(ia: seq<Json>, ib: seq<Json>)
    requires |ia| == |ib| > 0 && Same(ia[0], ib[0])
    requires forall i :: 0 <= i < |ia| - 1 ==> Same(ia[1..][i], ib[1..][i])
    ensures forall i :: 0 <= i < |ia| ==> Same(ia[i], ib[i])
  {
    forall i | 0 < i < |ia| ensures Same(ia[i], ib[i]) {
      assert ia[i] == ia[1..][i - 1] && ib[i] == ib[1..][i - 1];
    }
  }

  ghost predicate Printable(members: seq<Member>, keys: seq<Utf16>) {
    && (forall i :: 0 <= i < |members| ==> WellFormed(members[i].value))
    && forall k :: k in keys ==> k in Keys(members)
  }

  lemma MembersUnfold(members: seq<Member>, keys: seq<Utf16>, x: Utf16)
    requires Printable(members, keys) && keys != []
    ensures PrintMembers(members, keys) + [CLOSE_BRACE] + x
         == Quote(keys[0]) + ([COLON] + (Print(members[Find(members, keys[0])].value)
            + AfterEntry(|keys| > 1, PrintMembers(members, keys[1..]), CLOSE_BRACE, x)))
  {
    var q, p := Quote(keys[0]), Print(members[Find(members, keys[0])].value);
    var rest := if |keys| > 1 then PrintMembers(members, keys[1..]) else [];
    Regroup(q, COLON, p, |keys| > 1, rest, CLOSE_BRACE, x);
  }

  lemma Regroup(q: Utf16, colon: CodeUnit, p: Utf16, more: bool, rest: Utf16, close: CodeUnit, x: Utf16)
    ensures (if more then q + [colon] + p + [COMMA] + rest else q + [colon] + p) + [close] + x
         == q + ([colon] + (p + AfterEntry(more, rest, close, x)))
  {
  }

  lemma MembersHead(members: seq<Member>, keys: seq<Utf16>, x: Utf16)
    requires Printable(members, keys)
    ensures keys == [] ==> PrintMembers(members, keys) + [CLOSE_BRACE] + x == [CLOSE_BRACE] + x
    ensures keys != [] ==> (PrintMembers(members, keys) + [CLOSE_BRACE] + x)[0] == QUOTE
  {
    if keys == [] {
      assert PrintMembers(members, keys) == [];
      EmptyThen(CLOSE_BRACE, x);
    } else {
      MembersUnfold(members, keys, x);
    }
  }

  /** Two printed keys with what follows them. */
  lemma KeyPrefixFree(j: Utf16, k: Utf16, p: Utf16, q: Utf16)
    requires Quote(j) + ([COLON] + p) == Quote(k) + ([COLON] + q)
    ensures j == k && p == q
  {
    QuotePrefixFree(j, k, [COLON] + p, [COLON] + q);
    Cancel(COLON, p, q);
  }

  lemma {:induction false} MembersPrefixFree(ma: seq<Member>, ka: seq<Utf16>,
                                             mb: seq<Member>, kb: seq<Utf16>, x: Utf16, y: Utf16)
    requires Printable(ma, ka) && Printable(mb, kb)
    requires PrintMembers(ma, ka) + [CLOSE_BRACE] + x == PrintMembers(mb, kb) + [CLOSE_BRACE] + y
    ensures ka == kb && x == y
    ensures forall k :: k in ka ==> Same(ma[Find(ma, k)].value, mb[Find(mb, k)].value)
    decreases ma, 0, |ka|
  {
    MembersHead(ma, ka, x);
    MembersHead(mb, kb, y);
    if ka == [] {
      Cancel(CLOSE_BRACE, x, y);
    } else {
      var ra, rb := PrintMembers(ma, ka[1..]), PrintMembers(mb, kb[1..]);
      MembersUnfold(ma, ka, x);
      MembersUnfold(mb, kb, y);
      KeyPrefixFree(ka[0], kb[0], Print(ma[Find(ma, ka[0])].value) + AfterEntry(|ka| > 1, ra, CLOSE_BRACE, x),
                    Print(mb[Find(mb, kb[0])].value) + AfterEntry(|kb| > 1, rb, CLOSE_BRACE, y));
      PrintPrefixFree(ma[Find(ma, ka[0])].value, mb[Find(mb, kb[0])].value,
                      AfterEntry(|ka| > 1, ra, CLOSE_BRACE, x), AfterEntry(|kb| > 1, rb, CLOSE_BRACE, y));
      AfterEntryPrefixFree(|ka| > 1, ra, |kb| > 1, rb, CLOSE_BRACE, x, y);
      if |ka| > 1 {
        MembersPrefixFree(ma, ka[1..], mb, kb[1..], x, y);
      }
      SameHeadAndTail(ka, kb);
    }
  }

  lemma SameHeadAndTail(a: seq<Utf16>, b: seq<Utf16>)
    requires |a| > 0 && |b| > 0 && a[0] == b[0] && a[1..] == b[1..]
    ensures a == b
    ensures forall k :: k in a ==> k == a[0] || k in a[1..]
  {
    assert a == [a[0]] + a[1..] && b == [b[0]] + b[1..];
  }

  // ---------------------------------------------------------------------------
  // Equal values print alike
  // ---------------------------------------------------------------------------

  lemma {:induction false} SamePrintsAlike(a: Json, b: Json)
    requires WellFormed(a) && WellFormed(b) && Same(a, b)
    ensures Print(a) == Print(b)
    decreases a, 1, 0
  {
    match a {
      case Null =>
      case NonFinite =>
      case Bool(_) =>
      case Num(_) =>
      case Str(_) =>
      case Arr(items) => SameItemsPrintAlike(items, b.items);
      case Obj(members) =>
        SortKeysSorts(Keys(members));
        SortKeysSorts(Keys(b.members));
        var keys := SortKeys(Keys(members));
        SortedIsUnique(keys, SortKeys(Keys(b.members)));
        SameMembersPrintAlike(members, b.members, keys);
    }
  }

  lemma {:induction false} SameItemsPrintAlike(ia: seq<Json>, ib: seq<Json>)
    requires |ia| == |ib|
    requires forall i :: 0 <= i < |ia| ==> WellFormed(ia[i]) && WellFormed(ib[i]) && Same(ia[i], ib[i])
    ensures PrintItems(ia) == PrintItems(ib)
    decreases ia, 0, 0
  {
    if ia != [] {
      SamePrintsAlike(ia[0], ib[0]);
      SameItemsPrintAlike(ia[1..], ib[1..]);
    }
  }

  lemma {:induction false} SameMembersPrintAlike(ma: seq<Member>, mb: seq<Member>, keys: seq<Utf16>)
    requires Printable(ma, keys) && Printable(mb, keys)
    requires forall k :: k in keys ==> Same(ma[Find(ma, k)].value, mb[Find(mb, k)].value)
    ensures PrintMembers(ma, keys) == PrintMembers(mb, keys)
    decreases ma, 0, |keys|
  {
    if keys != [] {
      SamePrintsAlike(ma[Find(ma, keys[0])].value, mb[Find(mb, keys[0])].value);
      SameMembersPrintAlike(ma, mb, keys[1..]);
    }
  }

  /**
   Two values print alike exactly when they are equal with objects read as finite maps and
   non-finite numbers read as null.
   */
  lemma PrintIsCanonical(a: Json, b: Json)
    requires WellFormed(a) && WellFormed(b)
    ensures Print(a) == Print(b) <==> Same(a, b)
  {
    if Same(a, b) { SamePrintsAlike(a, b); }
    if Print(a) == Print(b) { PrintPrefixFree(a, b, [], []); }
  }

  /** Strings that differ anywhere, lone surrogates included, print differently. */
  lemma QuoteInjective(s: Utf16, t: Utf16)
    ensures Quote(s) == Quote(t) <==> s == t
  {
    if Quote(s) == Quote(t) {
      assert Quote(s) + [] == Quote(t) + [];
      QuotePrefixFree(s, t, [], []);
    }
  }

  /** A non-finite number and null print alike although they differ. */
  lemma NonFinitePrintsAsNull()
    ensures Print(Arr([NonFinite])) == Print(Arr([Null])) && Arr([NonFinite]) != Arr([Null])
  {
    assert Arr([NonFinite]).items[0] != Arr([Null]).items[0];
    PrintIsCanonical(Arr([NonFinite]), Arr([Null]));
  }
}
