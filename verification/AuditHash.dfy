/** The text that is hashed for an audit row. */
module AuditHash {
  import opened Wrappers
  import opened Lex
  import opened CanonicalJson
  import opened JsonReader

  /** The seven hashed fields of an audit row. */
  datatype Payload = Payload(
    actorId: Utf16, action: Utf16, entityType: Utf16, entityId: Utf16,
    before: Json, after: Json, ts: Utf16)

  ghost predicate WellFormedPayload(p: Payload) {
    WellFormed(p.before) && WellFormed(p.after)
  }

  /** Equal in all seven fields, objects read as finite maps. */
  ghost predicate SamePayload(p: Payload, q: Payload) {
    && p.actorId == q.actorId && p.action == q.action
    && p.entityType == q.entityType && p.entityId == q.entityId
    && Same(p.before, q.before) && Same(p.after, q.after)
    && p.ts == q.ts
  }

  /** The code units of a text given in ASCII. */
  function Ascii(s: string): (u: Utf16)
    ensures |u| == |s|
    ensures forall i :: 0 <= i < |s| && s[i] as int < 0x80 ==> u[i] == s[i] as int
  {
    seq(|s|, i requires 0 <= i < |s| => s[i] as int % 0x80)
  }

  function TsField(p: Payload): Utf16 {
    Ascii(",\"ts\":") + (Quote(p.ts) + Ascii("}"))
  }

  function AfterField(p: Payload): Utf16
    requires WellFormed(p.after)
  {
    Ascii(",\"after\":") + (Print(p.after) + TsField(p))
  }

  function BeforeField(p: Payload): Utf16
    requires WellFormed(p.before) && WellFormed(p.after)
  {
    Ascii(",\"before\":") + (Print(p.before) + AfterField(p))
  }

  function Identity(p: Payload): Utf16
    requires WellFormed(p.before) && WellFormed(p.after)
  {
    Ascii("{\"actor_id\":") + (Quote(p.actorId) +
    (Ascii(",\"action\":") + (Quote(p.action) +
    (Ascii(",\"entity_type\":") + (Quote(p.entityType) +
    (Ascii(",\"entity_id\":") + (Quote(p.entityId) + BeforeField(p))))))))
  }

  /** The text whose hash is the row's hash. */
  function HashInput(prevHash: Utf16, p: Payload): Utf16
    requires WellFormed(p.before) && WellFormed(p.after)
  {
    prevHash + Identity(p)
  }

  lemma QuotedField(l: Utf16, s: Utf16, x: Utf16, t: Utf16, y: Utf16)
    requires l + (Quote(s) + x) == l + (Quote(t) + y)
    ensures s == t && x == y
  {
    SameLengthPrefix(l, l, Quote(s) + x, Quote(t) + y);
    QuotePrefixFree(s, t, x, y);
  }

  lemma PrintedField(l: Utf16, v: Json, x: Utf16, w: Json, y: Utf16)
    requires WellFormed(v) && WellFormed(w) && Stops(x) && Stops(y)
    requires l + (Print(v) + x) == l + (Print(w) + y)
    ensures Same(v, w) && x == y
  {
    SameLengthPrefix(l, l, Print(v) + x, Print(w) + y);
    PrintPrefixFree(v, w, x, y);
  }

  lemma TailInjective(p: Payload, q: Payload)
    requires WellFormedPayload(p) && WellFormedPayload(q)
    requires BeforeField(p) == BeforeField(q)
    ensures Same(p.before, q.before) && Same(p.after, q.after) && p.ts == q.ts
  {
    assert AfterField(p)[0] == COMMA && AfterField(q)[0] == COMMA;
    PrintedField(Ascii(",\"before\":"), p.before, AfterField(p), q.before, AfterField(q));
    assert TsField(p)[0] == COMMA && TsField(q)[0] == COMMA;
    PrintedField(Ascii(",\"after\":"), p.after, TsField(p), q.after, TsField(q));
    QuotedField(Ascii(",\"ts\":"), p.ts, Ascii("}"), q.ts, Ascii("}"));
  }

  lemma IdentityInjective(p: Payload, q: Payload)
    requires WellFormedPayload(p) && WellFormedPayload(q)
    requires Identity(p) == Identity(q)
    ensures SamePayload(p, q)
  {
    var l1, l2 := Ascii("{\"actor_id\":"), Ascii(",\"action\":");
    var l3, l4 := Ascii(",\"entity_type\":"), Ascii(",\"entity_id\":");
    var p4, q4 := l4 + (Quote(p.entityId) + BeforeField(p)), l4 + (Quote(q.entityId) + BeforeField(q));
    var p3, q3 := l3 + (Quote(p.entityType) + p4), l3 + (Quote(q.entityType) + q4);
    var p2, q2 := l2 + (Quote(p.action) + p3), l2 + (Quote(q.action) + q3);
    QuotedField(l1, p.actorId, p2, q.actorId, q2);
    QuotedField(l2, p.action, p3, q.action, q3);
    QuotedField(l3, p.entityType, p4, q.entityType, q4);
    QuotedField(l4, p.entityId, BeforeField(p), q.entityId, BeforeField(q));
    TailInjective(p, q);
  }

  /** The hashed text determines the previous hash and all seven fields, and nothing more. */
  lemma HashInputInjective(h: Utf16, p: Payload, k: Utf16, q: Payload)
    requires WellFormedPayload(p) && WellFormedPayload(q) && |h| == |k|
    ensures HashInput(h, p) == HashInput(k, q) <==> h == k && SamePayload(p, q)
  {
    if HashInput(h, p) == HashInput(k, q) {
      SameLengthPrefix(h, k, Identity(p), Identity(q));
      IdentityInjective(p, q);
    }
    if h == k && SamePayload(p, q) {
      SamePrintsAlike(p.before, q.before);
      SamePrintsAlike(p.after, q.after);
    }
  }

  // ---------------------------------------------------------------------------
  // The hashed text read as JSON
  // ---------------------------------------------------------------------------

  /** Characters that stand for themselves in a JSON string. */
  ghost predicate Plain(s: Utf16) {
    forall i :: 0 <= i < |s| ==> s[i] >= 32 && s[i] != QUOTE && s[i] != BACKSLASH
  }

  lemma {:induction false} PlainReads(s: Utf16, x: Utf16)
    requires Plain(s)
    ensures ReadString(s + ([QUOTE] + x)) == Some(Read(s, x))
  {
    if s == [] {
      assert s + ([QUOTE] + x) == [QUOTE] + x && ([QUOTE] + x)[1..] == x;
    } else {
      var text, tail := s + ([QUOTE] + x), s[1..] + ([QUOTE] + x);
      assert text[1..] == tail && text[0] == s[0];
      PlainReads(s[1..], x);
      ReadStringStep(s[0], text, tail);
      assert s == [s[0]] + s[1..];
    }
  }

  /** A name in quotation marks, a colon, and a value. */
  lemma FieldReads(name: Utf16, t: Utf16, w: Json, y: Utf16)
    requires Plain(name) && ReadValue(t) == Some(Read(w, y))
    ensures ReadMember([QUOTE] + (name + ([QUOTE] + ([COLON] + t)))) == Some(Read(Member(name, w), y))
  {
    var text := [QUOTE] + (name + ([QUOTE] + ([COLON] + t)));
    assert text[1..] == name + ([QUOTE] + ([COLON] + t)) && ([COLON] + t)[1..] == t;
    PlainReads(name, [COLON] + t);
  }

  ghost predicate IsAscii(s: string) {
    forall i :: 0 <= i < |s| ==> s[i] as int < 0x80
  }

  /** `lead` is the text `"name":`, perhaps with one character before it. */
  ghost predicate IsLead(lead: string, before: string, name: string) {
    IsAscii(lead) && |before| <= 1 && lead == before + "\"" + name + "\":"
  }

  lemma ActorIdLead()
    ensures IsLead("{\"actor_id\":", "{", "actor_id") && Plain(Ascii("actor_id"))
  {
  }

  lemma ActionLead()
    ensures IsLead(",\"action\":", ",", "action") && Plain(Ascii("action"))
  {
  }

  lemma EntityTypeLead()
    ensures IsLead(",\"entity_type\":", ",", "entity_type") && Plain(Ascii("entity_type"))
  {
  }

  lemma EntityIdLead()
    ensures IsLead(",\"entity_id\":", ",", "entity_id") && Plain(Ascii("entity_id"))
  {
  }

  lemma BeforeLead()
    ensures IsLead(",\"before\":", ",", "before") && Plain(Ascii("before"))
  {
  }

  lemma AfterLead()
    ensures IsLead(",\"after\":", ",", "after") && Plain(Ascii("after"))
  {
  }

  lemma LeadText(lead: string, before: string, name: string)
    requires IsLead(lead, before, name)
    ensures Ascii(lead) == Ascii(before) + [QUOTE] + Ascii(name) + [QUOTE] + [COLON]
  {
    var n, k := |before|, |name|;
    assert lead[n] == '"' && lead[n + 1 + k] == '"' && lead[n + 2 + k] == ':';
    assert forall i :: 0 <= i < k ==> lead[n + 1 + i] == name[i];
    assert forall i :: 0 <= i < n ==> lead[i] == before[i];
  }

  lemma LeadThen(lead: string, before: string, name: string, t: Utf16)
    requires IsLead(lead, before, name)
    ensures Ascii(lead) + t == Ascii(before) + ([QUOTE] + (Ascii(name) + ([QUOTE] + ([COLON] + t))))
  {
    LeadText(lead, before, name);
  }

  /** A first member and the ones behind its comma. */
  lemma MembersThen(lead: string, before: string, name: string, t: Utf16, w: Json, y: Utf16, more: seq<Member>)
    requires IsLead(lead, before, name) && Plain(Ascii(name))
    requires ReadValue(t) == Some(Read(w, y)) && y != [] && y[0] == COMMA
    requires ReadMembers(y[1..]) == Some(Read(more, []))
    ensures ReadMembers((Ascii(lead) + t)[|before|..]) == Some(Read([Member(Ascii(name), w)] + more, []))
  {
    var text := [QUOTE] + (Ascii(name) + ([QUOTE] + ([COLON] + t)));
    LeadThen(lead, before, name, t);
    assert (Ascii(before) + text)[|before|..] == text;
    FieldReads(Ascii(name), t, w, y);
    ReadMembersStep(text, Member(Ascii(name), w), y);
  }

  lemma TsReads(p: Payload)
    ensures TsField(p)[0] == COMMA
    ensures ReadMembers(TsField(p)[1..]) == Some(Read([Member(Ascii("ts"), Str(p.ts))], []))
  {
    var t, y := Quote(p.ts) + Ascii("}"), Ascii("}");
    assert IsLead(",\"ts\":", ",", "ts");
    LeadThen(",\"ts\":", ",", "ts", t);
    var text := [QUOTE] + (Ascii("ts") + ([QUOTE] + ([COLON] + t)));
    assert (Ascii(",") + text)[1..] == text;
    StringReadsBack(p.ts, y);
    FieldReads(Ascii("ts"), t, Str(p.ts), y);
    ReadMembersStep(text, Member(Ascii("ts"), Str(p.ts)), y);
    assert y[0] == CLOSE_BRACE && y[1..] == [];
  }

  /** The members for the state before, the state after and the time. */
  ghost predicate TailMembers(p: Payload, members: seq<Member>)
    requires WellFormedPayload(p)
  {
    && |members| == 3
    && members[0].key == Ascii("before") && Same(p.before, members[0].value)
    && members[1].key == Ascii("after") && Same(p.after, members[1].value)
    && members[2] == Member(Ascii("ts"), Str(p.ts))
  }

  lemma AfterMember(t: Utf16, w: Json, y: Utf16, more: seq<Member>)
    requires ReadValue(t) == Some(Read(w, y)) && y != [] && y[0] == COMMA
    requires ReadMembers(y[1..]) == Some(Read(more, []))
    ensures var x := Ascii(",\"after\":") + t;
      x[0] == COMMA && ReadMembers(x[1..]) == Some(Read([Member(Ascii("after"), w)] + more, []))
  {
    AfterLead();
    MembersThen(",\"after\":", ",", "after", t, w, y, more);
  }

  lemma BeforeMember(t: Utf16, w: Json, y: Utf16, more: seq<Member>)
    requires ReadValue(t) == Some(Read(w, y)) && y != [] && y[0] == COMMA
    requires ReadMembers(y[1..]) == Some(Read(more, []))
    ensures var x := Ascii(",\"before\":") + t;
      x[0] == COMMA && ReadMembers(x[1..]) == Some(Read([Member(Ascii("before"), w)] + more, []))
  {
    BeforeLead();
    MembersThen(",\"before\":", ",", "before", t, w, y, more);
  }

  lemma TailReads(p: Payload) returns (members: seq<Member>)
    requires WellFormedPayload(p)
    ensures BeforeField(p)[0] == COMMA
    ensures ReadMembers(BeforeField(p)[1..]) == Some(Read(members, [])) && TailMembers(p, members)
  {
    TsReads(p);
    PrintReadsBack(p.after, TsField(p));
    var after := ReadValue(Print(p.after) + TsField(p)).value.value;
    var one := [Member(Ascii("ts"), Str(p.ts))];
    AfterMember(Print(p.after) + TsField(p), after, TsField(p), one);
    PrintReadsBack(p.before, AfterField(p));
    var before := ReadValue(Print(p.before) + AfterField(p)).value.value;
    var two := [Member(Ascii("after"), after)] + one;
    BeforeMember(Print(p.before) + AfterField(p), before, AfterField(p), two);
    members := [Member(Ascii("before"), before)] + two;
  }

  lemma StringMember(lead: string, before: string, name: string, s: Utf16, y: Utf16, more: seq<Member>)
    requires IsLead(lead, before, name) && Plain(Ascii(name))
    requires y != [] && y[0] == COMMA && ReadMembers(y[1..]) == Some(Read(more, []))
    ensures ReadMembers((Ascii(lead) + (Quote(s) + y))[|before|..])
      == Some(Read([Member(Ascii(name), Str(s))] + more, []))
  {
    StringReadsBack(s, y);
    MembersThen(lead, before, name, Quote(s) + y, Str(s), y, more);
  }

  lemma EntityIdReads(s: Utf16, y: Utf16, more: seq<Member>)
    requires y != [] && y[0] == COMMA && ReadMembers(y[1..]) == Some(Read(more, []))
    ensures var x := Ascii(",\"entity_id\":") + (Quote(s) + y);
      x[0] == COMMA && ReadMembers(x[1..]) == Some(Read([Member(Ascii("entity_id"), Str(s))] + more, []))
  {
    EntityIdLead();
    StringMember(",\"entity_id\":", ",", "entity_id", s, y, more);
  }

  lemma EntityTypeReads(s: Utf16, y: Utf16, more: seq<Member>)
    requires y != [] && y[0] == COMMA && ReadMembers(y[1..]) == Some(Read(more, []))
    ensures var x := Ascii(",\"entity_type\":") + (Quote(s) + y);
      x[0] == COMMA && ReadMembers(x[1..]) == Some(Read([Member(Ascii("entity_type"), Str(s))] + more, []))
  {
    EntityTypeLead();
    StringMember(",\"entity_type\":", ",", "entity_type", s, y, more);
  }

  lemma ActionReads(s: Utf16, y: Utf16, more: seq<Member>)
    requires y != [] && y[0] == COMMA && ReadMembers(y[1..]) == Some(Read(more, []))
    ensures var x := Ascii(",\"action\":") + (Quote(s) + y);
      x[0] == COMMA && ReadMembers(x[1..]) == Some(Read([Member(Ascii("action"), Str(s))] + more, []))
  {
    ActionLead();
    StringMember(",\"action\":", ",", "action", s, y, more);
  }

  lemma ActorIdReads(s: Utf16, y: Utf16, more: seq<Member>)
    requires y != [] && y[0] == COMMA && ReadMembers(y[1..]) == Some(Read(more, []))
    ensures var x := Ascii("{\"actor_id\":") + (Quote(s) + y);
      ReadValue(x) == Some(Read(Obj([Member(Ascii("actor_id"), Str(s))] + more), []))
  {
    var x := Ascii("{\"actor_id\":") + (Quote(s) + y);
    ActorIdLead();
    StringMember("{\"actor_id\":", "{", "actor_id", s, y, more);
    assert x[0] == OPEN_BRACE && x[1] == QUOTE;
    ReadBraced(x, [Member(Ascii("actor_id"), Str(s))] + more);
  }

  /** The seven members that the hashed text stands for. */
  ghost predicate PayloadMembers(p: Payload, members: seq<Member>)
    requires WellFormedPayload(p)
  {
    |members| == 7 && members[..4] == NameMembers(p) && TailMembers(p, members[4..])
  }

  ghost function NameMembers(p: Payload): seq<Member> {
    [Member(Ascii("actor_id"), Str(p.actorId)), Member(Ascii("action"), Str(p.action)),
     Member(Ascii("entity_type"), Str(p.entityType)), Member(Ascii("entity_id"), Str(p.entityId))]
  }

  lemma IdentityReads(p: Payload, y: Utf16, tail: seq<Member>) returns (members: seq<Member>)
    requires WellFormedPayload(p) && y == BeforeField(p) && y != [] && y[0] == COMMA
    requires ReadMembers(y[1..]) == Some(Read(tail, []))
    ensures ReadValue(Identity(p)) == Some(Read(Obj(members), []))
    ensures members == NameMembers(p) + tail
  {
    EntityIdReads(p.entityId, y, tail);
    var x4 := Ascii(",\"entity_id\":") + (Quote(p.entityId) + y);
    var m3 := [Member(Ascii("entity_id"), Str(p.entityId))] + tail;
    EntityTypeReads(p.entityType, x4, m3);
    var x3 := Ascii(",\"entity_type\":") + (Quote(p.entityType) + x4);
    var m2 := [Member(Ascii("entity_type"), Str(p.entityType))] + m3;
    ActionReads(p.action, x3, m2);
    var x2 := Ascii(",\"action\":") + (Quote(p.action) + x3);
    var m1 := [Member(Ascii("action"), Str(p.action))] + m2;
    ActorIdReads(p.actorId, x2, m1);
    members := [Member(Ascii("actor_id"), Str(p.actorId))] + m1;
    FourThen(members[0], m1[0], m2[0], m3[0], tail);
  }

  lemma FourThen(a: Member, b: Member, c: Member, d: Member, tail: seq<Member>)
    ensures var all := [a] + ([b] + ([c] + ([d] + tail)));
      all == [a, b, c, d] + tail
  {
  }

  /** Behind the previous hash, the hashed text is one JSON object with the seven fields. */
  lemma HashInputReads(prevHash: Utf16, p: Payload) returns (members: seq<Member>)
    requires WellFormedPayload(p)
    ensures prevHash <= HashInput(prevHash, p)
    ensures ReadValue(HashInput(prevHash, p)[|prevHash|..]) == Some(Read(Obj(members), []))
    ensures PayloadMembers(p, members)
  {
    var tail := TailReads(p);
    members := IdentityReads(p, BeforeField(p), tail);
    assert HashInput(prevHash, p)[|prevHash|..] == Identity(p);
  }

  lemma ReadBraced(text: Utf16, members: seq<Member>)
    requires |text| > 1 && text[0] == OPEN_BRACE && text[1] == QUOTE
    requires ReadMembers(text[1..]) == Some(Read(members, []))
    ensures ReadValue(text) == Some(Read(Obj(members), []))
  {
  }
}
