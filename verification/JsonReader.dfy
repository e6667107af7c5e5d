/**
 A reader of JSON text without insignificant whitespace: the literals of section 3, the objects
 and arrays of sections 4 and 5, the numbers of section 6 and the strings of section 7 of RFC 8259.

 It is defined without the printer. What the printer prints is read back as the value printed.
 */
module JsonReader {
  import opened Wrappers
  import opened Lex
  import opened CanonicalJson

  /** What was read, and the text behind it. */
  datatype Read<+T> = Read(value: T, rest: Utf16)

  // ---------------------------------------------------------------------------
  // Strings
  // ---------------------------------------------------------------------------

  function HexValue(u: CodeUnit): (v: Option<nat>)
    ensures v.Some? ==> v.value < 16
  {
    if 48 <= u <= 57 then Some(u - 48)
    else if 97 <= u <= 102 then Some(u - 97 + 10)
    else if 65 <= u <= 70 then Some(u - 65 + 10)
    else None
  }

  /** Four hexadecimal digits. */
  function ReadHex(text: Utf16): (r: Option<Read<CodeUnit>>)
    ensures r.Some? ==> |r.value.rest| < |text|
  {
    if |text| < 4 then None
    else
      var a, b, c, d := HexValue(text[0]), HexValue(text[1]), HexValue(text[2]), HexValue(text[3]);
      if a.None? || b.None? || c.None? || d.None? then None
      else
        var n := a.value * 4096 + b.value * 256 + c.value * 16 + d.value;
        var u: CodeUnit := n;
        Some(Read(u, text[4..]))
  }

  /** What follows a backslash. */
  function ReadEscape(text: Utf16): (r: Option<Read<CodeUnit>>)
    ensures r.Some? ==> |r.value.rest| < |text|
  {
    if text == [] then None
    else
      match text[0]
      case 34 => Some(Read(34, text[1..]))  // quotation mark
      case 92 => Some(Read(92, text[1..]))  // backslash
      case 47 => Some(Read(47, text[1..]))  // slash
      case 98 => Some(Read(8, text[1..]))  // b, backspace
      case 102 => Some(Read(12, text[1..]))  // f, form feed
      case 110 => Some(Read(10, text[1..]))  // n, line feed
      case 114 => Some(Read(13, text[1..]))  // r, carriage return
      case 116 => Some(Read(9, text[1..]))  // t, tab
      case 117 => ReadHex(text[1..])  // u
      case _ => None
  }

  /** One character of a string. */
  function ReadUnit(text: Utf16): (r: Option<Read<CodeUnit>>)
    ensures r.Some? ==> |r.value.rest| < |text|
  {
    if text == [] || text[0] < 32 || text[0] == 34 then None
    else if text[0] == 92 then ReadEscape(text[1..])
    else Some(Read(text[0], text[1..]))
  }

  /** The rest of a string, behind its opening quotation mark. */
  function ReadString(text: Utf16): (r: Option<Read<Utf16>>)
    ensures r.Some? ==> |r.value.rest| < |text|
    decreases |text|
  {
    if text != [] && text[0] == 34 then Some(Read([], text[1..]))
    else
      var u := ReadUnit(text);
      if u.None? then None
      else
        var s := ReadString(u.value.rest);
        if s.None? then None else Some(Read([u.value.value] + s.value.value, s.value.rest))
  }

  lemma HexReadsBack(u: CodeUnit, x: Utf16)
    ensures ReadHex([HexDigit(u / 4096), HexDigit(u / 256 % 16), HexDigit(u / 16 % 16), HexDigit(u % 16)] + x)
      == Some(Read(u, x))
  {
    var digits: Utf16 := [HexDigit(u / 4096), HexDigit(u / 256 % 16), HexDigit(u / 16 % 16), HexDigit(u % 16)];
    assert (digits + x)[..4] == digits && (digits + x)[4..] == x;
    DigitReadsBack(u / 4096);
    DigitReadsBack(u / 256 % 16);
    DigitReadsBack(u / 16 % 16);
    DigitReadsBack(u % 16);
    FromNibbles(u);
  }

  lemma DigitReadsBack(d: nat)
    requires d < 16
    ensures HexValue(HexDigit(d)) == Some(d)
  {
  }

  lemma EscapeReadsBack(u: CodeUnit, x: Utf16)
    ensures ReadUnit(Escape(u) + x) == Some(Read(u, x)) && (Escape(u) + x)[0] != 34
  {
    if |Escape(u)| == 6 {
      UnicodeReadsBack(u, x);
    } else if |Escape(u)| == 2 {
      ShortReadsBack(u, Escape(u)[1], x);
    } else {
      assert ([u] + x)[1..] == x;
    }
  }

  lemma UnicodeReadsBack(u: CodeUnit, x: Utf16)
    ensures ReadUnit(UnicodeEscape(u) + x) == Some(Read(u, x))
  {
    HexReadsBack(u, x);
    var digits: Utf16 := [HexDigit(u / 4096), HexDigit(u / 256 % 16), HexDigit(u / 16 % 16), HexDigit(u % 16)];
    TwoBefore(BACKSLASH, 117, digits, x);
    assert UnicodeEscape(u) == [BACKSLASH, 117] + digits;
  }

  lemma TwoBefore(a: CodeUnit, b: CodeUnit, y: Utf16, x: Utf16)
    ensures var text := [a, b] + y + x; text[0] == a && text[1..] == [b] + (y + x) && text[1..][1..] == y + x
  {
  }

  lemma ShortReadsBack(u: CodeUnit, c: CodeUnit, x: Utf16)
    requires Escape(u) == [BACKSLASH, c] && |Escape(u)| == 2
    ensures ReadUnit([BACKSLASH, c] + x) == Some(Read(u, x))
  {
    TwoBefore(BACKSLASH, c, [], x);
    assert [BACKSLASH, c] + [] + x == [BACKSLASH, c] + x && [] + x == x;
  }

  lemma ReadStringStep(u: CodeUnit, text: Utf16, rest: Utf16)
    requires text != [] && text[0] != 34 && ReadUnit(text) == Some(Read(u, rest))
    requires ReadString(rest).Some?
    ensures ReadString(text) == Some(Read([u] + ReadString(rest).value.value, ReadString(rest).value.rest))
  {
  }

  lemma PairReadsBack(h: CodeUnit, l: CodeUnit, s: Utf16, x: Utf16, y: Utf16)
    requires h >= 0xD800 && l >= 0xD800 && ReadString(y) == Some(Read(s, x))
    ensures ReadString([h, l] + y) == Some(Read([h, l] + s, x))
  {
    assert [h, l] + y == [h] + ([l] + y) && ([h] + ([l] + y))[1..] == [l] + y && ([l] + y)[1..] == y;
    ReadStringStep(l, [l] + y, y);
    ReadStringStep(h, [h] + ([l] + y), [l] + y);
    assert [h] + ([l] + s) == [h, l] + s;
  }

  lemma {:induction false} BodyReadsBack(s: Utf16, x: Utf16)
    ensures ReadString(Body(s) + [QUOTE] + x) == Some(Read(s, x))
    decreases |s|
  {
    BodyHead(s, x);
    if s == [] {
      assert ([QUOTE] + x)[1..] == x;
    } else {
      var tail := s[TokenWidth(s)..];
      BodyReadsBack(tail, x);
      BodyUnfold(s, x);
      TokenReadsBack(s, tail, Body(tail) + [QUOTE] + x, x);
    }
  }

  lemma TokenReadsBack(s: Utf16, tail: Utf16, y: Utf16, x: Utf16)
    requires s != [] && tail == s[TokenWidth(s)..] && ReadString(y) == Some(Read(tail, x))
    ensures ReadString(Token(s) + y) == Some(Read(s, x))
  {
    if StartsWithPair(s) {
      PairReadsBack(s[0], s[1], tail, x, y);
      assert s[..2] == [s[0], s[1]] && s == s[..2] + tail;
    } else {
      EscapeReadsBack(s[0], y);
      ReadStringStep(s[0], Escape(s[0]) + y, y);
      assert s == [s[0]] + tail;
    }
  }

  /** A printed string is read back, whatever follows it. */
  lemma QuoteReadsBack(s: Utf16, x: Utf16)
    ensures (Quote(s) + x)[0] == 34 && ReadString((Quote(s) + x)[1..]) == Some(Read(s, x))
  {
    QuoteUnfold(s, x);
    assert ([QUOTE] + (Body(s) + [QUOTE] + x))[1..] == Body(s) + [QUOTE] + x;
    BodyReadsBack(s, x);
  }

  // ---------------------------------------------------------------------------
  // Values
  // ---------------------------------------------------------------------------

  /** The length of the run of number characters at the start. */
  function NumberRun(text: Utf16): (n: nat)
    ensures n <= |text|
  {
    if text == [] || !IsNumberUnit(text[0]) then 0 else 1 + NumberRun(text[1..])
  }

  ghost function ReadNumber(text: Utf16): (r: Option<Read<Json>>)
    ensures r.Some? ==> |r.value.rest| < |text|
  {
    var n := NumberRun(text);
    if n > 0 && IsNumberText(text[..n]) then Some(Read(Num(text[..n]), text[n..])) else None
  }

  ghost function ReadValue(text: Utf16): (r: Option<Read<Json>>)
    ensures r.Some? ==> |r.value.rest| < |text|
    decreases |text|, 0
  {
    if [110, 117, 108, 108] <= text then Some(Read(Null, text[4..]))
    else if [116, 114, 117, 101] <= text then Some(Read(Bool(true), text[4..]))
    else if [102, 97, 108, 115, 101] <= text then Some(Read(Bool(false), text[5..]))
    else if text == [] then None
    else if text[0] == 34 then
      var s := ReadString(text[1..]);
      if s.None? then None else Some(Read(Str(s.value.value), s.value.rest))
    else if text[0] == 91 then
      if |text| > 1 && text[1] == 93 then Some(Read(Arr([]), text[2..]))
      else
        var items := ReadItems(text[1..]);
        if items.None? then None else Some(Read(Arr(items.value.value), items.value.rest))
    else if text[0] == 123 then
      if |text| > 1 && text[1] == 125 then Some(Read(Obj([]), text[2..]))
      else
        var members := ReadMembers(text[1..]);
        if members.None? then None else Some(Read(Obj(members.value.value), members.value.rest))
    else ReadNumber(text)
  }

  /** Items separated by commas, up to the closing bracket. */
  ghost function ReadItems(text: Utf16): (r: Option<Read<seq<Json>>>)
    ensures r.Some? ==> |r.value.rest| < |text|
    decreases |text|, 1
  {
    var v := ReadValue(text);
    if v.None? || v.value.rest == [] then None
    else if v.value.rest[0] == 93 then Some(Read([v.value.value], v.value.rest[1..]))
    else if v.value.rest[0] == 44 then
      var more := ReadItems(v.value.rest[1..]);
      if more.None? then None else Some(Read([v.value.value] + more.value.value, more.value.rest))
    else None
  }

  /** A name, a colon and a value. */
  ghost function ReadMember(text: Utf16): (r: Option<Read<Member>>)
    ensures r.Some? ==> |r.value.rest| < |text|
    decreases |text|, 1
  {
    if text == [] || text[0] != 34 then None
    else
      var k := ReadString(text[1..]);
      if k.None? || k.value.rest == [] || k.value.rest[0] != 58 then None
      else
        var v := ReadValue(k.value.rest[1..]);
        if v.None? then None else Some(Read(Member(k.value.value, v.value.value), v.value.rest))
  }

  /** Members separated by commas, up to the closing brace. */
  ghost function ReadMembers(text: Utf16): (r: Option<Read<seq<Member>>>)
    ensures r.Some? ==> |r.value.rest| < |text|
    decreases |text|, 2
  {
    var m := ReadMember(text);
    if m.None? || m.value.rest == [] then None
    else if m.value.rest[0] == 125 then Some(Read([m.value.value], m.value.rest[1..]))
    else if m.value.rest[0] == 44 then
      var more := ReadMembers(m.value.rest[1..]);
      if more.None? then None else Some(Read([m.value.value] + more.value.value, more.value.rest))
    else None
  }

  /** The keys of every object, at any depth, are in ascending order. */
  ghost predicate KeysAscend(v: Json) {
    match v
    case Arr(items) => forall i :: 0 <= i < |items| ==> KeysAscend(items[i])
    case Obj(members) =>
      Sorted(Keys(members)) && forall i :: 0 <= i < |members| ==> KeysAscend(members[i].value)
    case _ => true
  }

  /** Reading the text gives a value equal to `v` with its keys in ascending order, and leaves `x`. */
  ghost predicate ReadsAs(text: Utf16, v: Json, x: Utf16) {
    var r := ReadValue(text);
    r.Some? && r.value.rest == x && Same(v, r.value.value) && KeysAscend(r.value.value)
  }

  lemma {:induction false} NumberRunStops(a: Utf16, x: Utf16)
    requires (forall i :: 0 <= i < |a| ==> IsNumberUnit(a[i])) && Stops(x)
    ensures NumberRun(a + x) == |a|
  {
    if a == [] {
      assert a + x == x;
    } else {
      assert (a + x)[1..] == a[1..] + x;
      NumberRunStops(a[1..], x);
    }
  }

  lemma ReadNumberFirst(text: Utf16)
    requires text != [] && IsNumberUnit(text[0])
    ensures ReadValue(text) == ReadNumber(text)
  {
  }

  lemma NumberReadsBack(text: Utf16, x: Utf16)
    requires IsNumberText(text) && Stops(x)
    ensures ReadValue(text + x) == Some(Read(Num(text), x))
  {
    NumberTextUnits(text);
    NumberRunStops(text, x);
    var all := text + x;
    assert all[..|text|] == text && all[|text|..] == x && all[0] == text[0];
    ReadNumberFirst(all);
  }

  lemma LiteralReadsBack(v: Json, x: Utf16)
    requires WellFormed(v) && (IsNullish(v) || v.Bool?)
    ensures ReadsAs(Print(v) + x, v, x)
  {
    var text := Print(v) + x;
    assert text[..|Print(v)|] == Print(v) && text[|Print(v)|..] == x;
    assert text[0] == Print(v)[0];
  }

  lemma StringReadsBack(s: Utf16, x: Utf16)
    ensures ReadValue(Quote(s) + x) == Some(Read(Str(s), x))
  {
    QuoteReadsBack(s, x);
  }

  /** Whatever is well-formed is read back from its printed text: the same value, keys ascending. */
  lemma {:induction false} PrintReadsBack(v: Json, x: Utf16)
    requires WellFormed(v) && Stops(x)
    ensures ReadsAs(Print(v) + x, v, x)
    decreases v, 1, 0
  {
    match v {
      case Null => LiteralReadsBack(v, x);
      case NonFinite => LiteralReadsBack(v, x);
      case Bool(_) => LiteralReadsBack(v, x);
      case Num(text) => NumberReadsBack(text, x);
      case Str(s) => StringReadsBack(s, x);
      case Arr(items) =>
        if items != [] { ItemsReadBack(items, x); }
        ArrayReadsBack(items, x);
      case Obj(members) =>
        var keys := SortKeys(Keys(members));
        SortKeysSorts(Keys(members));
        SortKeysKeeps(Keys(members));
        if keys != [] { MembersReadBack(members, keys, x); }
        ObjectReadsBack(members, keys, x);
    }
  }

  /** The text holds items equal to these, a closing bracket and `x`. */
  ghost predicate ItemsRead(text: Utf16, items: seq<Json>, x: Utf16) {
    var r := ReadItems(text);
    r.Some? && r.value.rest == x && AllSame(items, r.value.value)
  }

  /** Item by item the same, with keys in ascending order. */
  ghost predicate AllSame(items: seq<Json>, read: seq<Json>) {
    && |read| == |items|
    && forall i :: 0 <= i < |items| ==> Same(items[i], read[i]) && KeysAscend(read[i])
  }

  lemma ReadArray(text: Utf16, inner: Utf16, x: Utf16)
    requires text == [OPEN_BRACKET] + inner && inner != []
    ensures inner == [CLOSE_BRACKET] + x ==> ReadValue(text) == Some(Read(Arr([]), x))
    ensures inner[0] != CLOSE_BRACKET && ReadItems(inner).Some? ==>
      ReadValue(text) == Some(Read(Arr(ReadItems(inner).value.value), ReadItems(inner).value.rest))
  {
    assert text[1..] == inner && text[0] == 91 && text[1] == inner[0];
    if inner == [CLOSE_BRACKET] + x {
      assert text[2..] == x;
    }
  }

  lemma ArrayReadsBack(items: seq<Json>, x: Utf16)
    requires WellFormed(Arr(items)) && (items == [] || ItemsRead(PrintItems(items) + [CLOSE_BRACKET] + x, items, x))
    ensures ReadsAs(Print(Arr(items)) + x, Arr(items), x)
  {
    var text, inner := Print(Arr(items)) + x, PrintItems(items) + [CLOSE_BRACKET] + x;
    ItemsHead(items, x);
    assert text == [OPEN_BRACKET] + inner;
    ReadArray(text, inner, x);
    if items != [] {
      assert AllSame(items, ReadItems(inner).value.value);
    }
  }

  lemma {:induction false} ItemsReadBack(items: seq<Json>, x: Utf16)
    requires items != [] && forall i :: 0 <= i < |items| ==> WellFormed(items[i])
    ensures ItemsRead(PrintItems(items) + [CLOSE_BRACKET] + x, items, x)
    decreases items, 0, 0
  {
    var more := |items| > 1;
    var rest := PrintItems(items[1..]);
    var y := AfterEntry(more, rest, CLOSE_BRACKET, x);
    ItemsUnfold(items, x);
    PrintReadsBack(items[0], y);
    if more {
      ItemsReadBack(items[1..], x);
      assert y[1..] == rest + [CLOSE_BRACKET] + x;
    } else {
      assert y[1..] == x;
    }
    ItemsReadCons(PrintItems(items) + [CLOSE_BRACKET] + x, items, y, x);
  }

  lemma ReadItemsStep(text: Utf16, v: Json, y: Utf16)
    requires ReadValue(text) == Some(Read(v, y)) && y != []
    ensures y[0] == 93 ==> ReadItems(text) == Some(Read([v], y[1..]))
    ensures y[0] == 44 && ReadItems(y[1..]).Some? ==>
      ReadItems(text) == Some(Read([v] + ReadItems(y[1..]).value.value, ReadItems(y[1..]).value.rest))
  {
  }

  lemma ItemsCons(items: seq<Json>, first: Json, tail: seq<Json>)
    requires items != [] && Same(items[0], first) && KeysAscend(first) && AllSame(items[1..], tail)
    ensures AllSame(items, [first] + tail)
  {
    forall i | 0 < i < |items| ensures Same(items[i], ([first] + tail)[i]) && KeysAscend(([first] + tail)[i]) {
      assert items[i] == items[1..][i - 1] && ([first] + tail)[i] == tail[i - 1];
    }
  }

  lemma ItemsReadCons(text: Utf16, items: seq<Json>, y: Utf16, x: Utf16)
    requires items != [] && ReadsAs(text, items[0], y) && y != []
    requires if |items| > 1 then y[0] == 44 && ItemsRead(y[1..], items[1..], x) else y[0] == 93 && y[1..] == x
    ensures ItemsRead(text, items, x)
  {
    var first := ReadValue(text).value.value;
    ReadItemsStep(text, first, y);
    if |items| > 1 {
      ItemsCons(items, first, ReadItems(y[1..]).value.value);
    } else {
      assert AllSame(items, [first]);
    }
  }

  /** The text holds members equal to those of the keys, in that order, a closing brace and `x`. */
  ghost predicate MembersRead(text: Utf16, members: seq<Member>, keys: seq<Utf16>, x: Utf16) {
    var r := ReadMembers(text);
    r.Some? && r.value.rest == x && AllByKeys(members, keys, r.value.value)
  }

  /** The member has the value of the same key, with keys in ascending order. */
  ghost predicate IsMember(members: seq<Member>, m: Member) {
    && m.key in Keys(members)
    && Same(members[Find(members, m.key)].value, m.value) && KeysAscend(m.value)
  }

  ghost predicate AllByKeys(members: seq<Member>, keys: seq<Utf16>, read: seq<Member>) {
    Keys(read) == keys && forall i :: 0 <= i < |read| ==> IsMember(members, read[i])
  }

  lemma BracedText(p: Utf16, x: Utf16)
    ensures [OPEN_BRACE] + p + [CLOSE_BRACE] + x == [OPEN_BRACE] + (p + [CLOSE_BRACE] + x)
  {
  }

  lemma ReadObject(text: Utf16, inner: Utf16, x: Utf16)
    requires text == [OPEN_BRACE] + inner && inner != []
    ensures inner == [CLOSE_BRACE] + x ==> ReadValue(text) == Some(Read(Obj([]), x))
    ensures inner[0] == QUOTE && ReadMembers(inner).Some? ==>
      ReadValue(text) == Some(Read(Obj(ReadMembers(inner).value.value), ReadMembers(inner).value.rest))
  {
    assert text[1..] == inner && text[0] == 123 && text[1] == inner[0];
    if inner == [CLOSE_BRACE] + x {
      assert text[2..] == x;
    }
  }

  lemma AscendByKeys(members: seq<Member>, keys: seq<Utf16>, read: seq<Member>)
    requires AllByKeys(members, keys, read) && Sorted(keys)
    ensures KeysAscend(Obj(read))
  {
    forall i | 0 <= i < |read| ensures KeysAscend(read[i].value) {
      assert IsMember(members, read[i]);
    }
  }

  lemma ObjectReadsBack(members: seq<Member>, keys: seq<Utf16>, x: Utf16)
    requires WellFormed(Obj(members)) && keys == SortKeys(Keys(members)) && Printable(members, keys) && Sorted(keys)
    requires forall k :: k in keys <==> k in Keys(members)
    requires keys == [] || MembersRead(PrintMembers(members, keys) + [CLOSE_BRACE] + x, members, keys, x)
    ensures ReadsAs(Print(Obj(members)) + x, Obj(members), x)
  {
    var text, inner := Print(Obj(members)) + x, PrintMembers(members, keys) + [CLOSE_BRACE] + x;
    BracedText(PrintMembers(members, keys), x);
    MembersHead(members, keys, x);
    assert text == [OPEN_BRACE] + inner;
    ReadObject(text, inner, x);
    if keys == [] {
      assert AllByKeys(members, keys, []);
      SameByKeys(members, keys, []);
    } else {
      var read := ReadMembers(inner).value.value;
      SameByKeys(members, keys, read);
      AscendByKeys(members, keys, read);
    }
  }

  lemma SameByKeys(members: seq<Member>, keys: seq<Utf16>, read: seq<Member>)
    requires AllByKeys(members, keys, read) && forall k :: k in keys <==> k in Keys(members)
    ensures Same(Obj(members), Obj(read))
  {
    forall k | k in Keys(members) && k in Keys(read)
      ensures Same(members[Find(members, k)].value, read[Find(read, k)].value)
    {
      assert IsMember(members, read[Find(read, k)]);
    }
  }

  lemma {:induction false} MembersReadBack(members: seq<Member>, keys: seq<Utf16>, x: Utf16)
    requires keys != [] && Printable(members, keys)
    ensures MembersRead(PrintMembers(members, keys) + [CLOSE_BRACE] + x, members, keys, x)
    decreases members, 0, |keys|
  {
    var more := |keys| > 1;
    var rest := PrintMembers(members, keys[1..]);
    var y := AfterEntry(more, rest, CLOSE_BRACE, x);
    var v := members[Find(members, keys[0])].value;
    MembersUnfold(members, keys, x);
    PrintReadsBack(v, y);
    MemberReadsBack(keys[0], v, y);
    if more {
      MembersReadBack(members, keys[1..], x);
      assert y[1..] == rest + [CLOSE_BRACE] + x;
    } else {
      assert y[1..] == x;
    }
    var m := Member(keys[0], ReadValue(Print(v) + y).value.value);
    MembersReadCons(PrintMembers(members, keys) + [CLOSE_BRACE] + x, members, keys, m, y, x);
  }

  lemma MemberReadsBack(k: Utf16, v: Json, y: Utf16)
    requires WellFormed(v) && ReadsAs(Print(v) + y, v, y)
    ensures ReadMember(Quote(k) + ([COLON] + (Print(v) + y)))
      == Some(Read(Member(k, ReadValue(Print(v) + y).value.value), y))
  {
    var tail := [COLON] + (Print(v) + y);
    QuoteReadsBack(k, tail);
    assert tail[1..] == Print(v) + y;
  }

  lemma ReadMembersStep(text: Utf16, m: Member, y: Utf16)
    requires ReadMember(text) == Some(Read(m, y)) && y != []
    ensures y[0] == 125 ==> ReadMembers(text) == Some(Read([m], y[1..]))
    ensures y[0] == 44 && ReadMembers(y[1..]).Some? ==>
      ReadMembers(text) == Some(Read([m] + ReadMembers(y[1..]).value.value, ReadMembers(y[1..]).value.rest))
  {
  }

  lemma MembersCons(members: seq<Member>, keys: seq<Utf16>, first: Member, tail: seq<Member>)
    requires keys != [] && first.key == keys[0] && IsMember(members, first)
    requires AllByKeys(members, keys[1..], tail)
    ensures AllByKeys(members, keys, [first] + tail)
  {
    var all := [first] + tail;
    assert |tail| == |keys[1..]|;
    forall i | 0 < i < |keys| ensures Keys(all)[i] == keys[i] && IsMember(members, all[i]) {
      assert keys[i] == keys[1..][i - 1] == Keys(tail)[i - 1] && all[i] == tail[i - 1];
    }
    assert Keys(all)[0] == keys[0];
  }

  lemma MembersReadCons(text: Utf16, members: seq<Member>, keys: seq<Utf16>, m: Member, y: Utf16, x: Utf16)
    requires keys != [] && m.key == keys[0] && IsMember(members, m) && ReadMember(text) == Some(Read(m, y)) && y != []
    requires if |keys| > 1 then y[0] == 44 && MembersRead(y[1..], members, keys[1..], x) else y[0] == 125 && y[1..] == x
    ensures MembersRead(text, members, keys, x)
  {
    ReadMembersStep(text, m, y);
    if |keys| > 1 {
      MembersCons(members, keys, m, ReadMembers(y[1..]).value.value);
    } else {
      assert Keys([m]) == [m.key] == keys;
      assert AllByKeys(members, keys, [m]);
    }
  }
}
