/**
 Field encryption at rest: the ciphertext format, the sensitive fields of each entity type, and
 encrypting and decrypting the properties of a record.
 */
module Encryption {
  import opened Wrappers
  import opened Text

  /** A property is a string, or some other JSON value that is never encrypted. */
  datatype Value = Str(text: string) | Other(data: nat)

  type Properties = map<string, Value>

  /**
   AES-GCM with one key per entity type, on strings of base64 text: the text of an initialisation
   vector, sealing under it, and opening (which fails on anything the key did not seal).
   */
  datatype Cipher = Cipher(
    ivText: nat -> string,
    seal: (string, string, string) -> string,
    open: (string, string, string) -> Option<string>)

  /** Opening undoes sealing, and base64 has no colon. */
  ghost predicate Lawful(c: Cipher) {
    && (forall n :: NoColon(c.ivText(n)))
    && (forall entityType, iv, p :: c.open(entityType, iv, c.seal(entityType, iv, p)) == Some(p))
  }

  /** The hypothesis can be met. */
  lemma SomeCipherIsLawful()
    ensures Lawful(Cipher(n => "iv", (entityType, iv, p) => p, (entityType, iv, sealed) => Some(sealed)))
  {
  }

  /** The registry of sensitive fields: the fields to encrypt, by entity type, none listed twice. */
  type Registry = fields: string -> seq<string> | DistinctFields(fields) witness (entityType => [])

  ghost predicate DistinctFields(fields: string -> seq<string>) {
    forall entityType, i, j :: 0 <= i < j < |fields(entityType)| ==> fields(entityType)[i] != fields(entityType)[j]
  }

  /** The process environment: whether encryption is enabled, its keys, and the registry. */
  datatype Settings = Settings(enabled: bool, cipher: Cipher, fields: Registry)

  const ENC_PREFIX := "enc:v1:"

  const BOM := '\U{FEFF}'

  /** The registry the program ships with. */
  function SensitiveFields(entityType: string): seq<string> {
    if entityType == "corpus_chunk" then ["body"]
    else if entityType == "email" then ["subject", "body"]
    else if entityType == "transcript" then ["body"]
    else if entityType == "wiki_page" then ["content"]
    else if entityType == "wiki_page_version" then ["content"]
    else if entityType == "crm_note" then ["body"]
    else if entityType == "customer" then ["name"]
    else if entityType == "customer_interest" then ["tags"]
    else if entityType == "identity_token" then ["real_name", "real_email", "real_org"]
    else if entityType == "recovery_shard" then ["shard_data"]
    else if entityType == "user" then ["display_name", "email"]
    else if entityType == "corporate_action" then ["filing_text"]
    else []
  }

  lemma ShippedRegistryIsDistinct()
    ensures DistinctFields(entityType => SensitiveFields(entityType))
  {
  }

  // ---------------------------------------------------------------------------
  // One field
  // ---------------------------------------------------------------------------

  predicate IsEncrypted(value: string) {
    ENC_PREFIX <= value
  }

  function EncryptField(s: Settings, entityType: string, plaintext: string, nonce: nat): string {
    if !s.enabled then plaintext
    else
      var iv := s.cipher.ivText(nonce);
      ENC_PREFIX + (iv + (":" + s.cipher.seal(entityType, iv, plaintext)))
  }

  /** A UTF-8 decoder drops one leading byte order mark. */
  function DecodeText(p: string): string {
    if p != [] && p[0] == BOM then p[1..] else p
  }

  /** `None` is a thrown error: the value has the format but does not open. */
  function DecryptField(s: Settings, entityType: string, value: string): Option<string> {
    if !s.enabled || !IsEncrypted(value) then Some(value)
    else
      var rest := value[|ENC_PREFIX|..];
      var k := ColonIndex(rest);
      if k == |rest| then Some(value)
      else
        match s.cipher.open(entityType, rest[..k], rest[k + 1..])
        case None => None
        case Some(p) => Some(DecodeText(p))
  }

  lemma {:induction false} ColonIndexOfSplit(iv: string, rest: string)
    requires NoColon(iv)
    ensures ColonIndex(iv + (":" + rest)) == |iv|
  {
    if iv != [] {
      ColonIndexOfSplit(iv[1..], rest);
      assert (iv + (":" + rest))[1..] == iv[1..] + (":" + rest);
    }
  }

  /** What decrypting an encrypted field gives. */
  lemma FieldReadsBack(s: Settings, entityType: string, plaintext: string, nonce: nat)
    requires Lawful(s.cipher)
    ensures s.enabled ==> IsEncrypted(EncryptField(s, entityType, plaintext, nonce))
    ensures s.enabled ==>
      DecryptField(s, entityType, EncryptField(s, entityType, plaintext, nonce)) == Some(DecodeText(plaintext))
  {
    if s.enabled {
      var iv := s.cipher.ivText(nonce);
      var sealed := s.cipher.seal(entityType, iv, plaintext);
      var rest := iv + (":" + sealed);
      ColonIndexOfSplit(iv, sealed);
      assert (ENC_PREFIX + rest)[|ENC_PREFIX|..] == rest;
      assert rest[..|iv|] == iv && rest[|iv| + 1..] == sealed;
    }
  }

  predicate StartsWithBom(p: string) {
    p != [] && p[0] == BOM
  }

  /** With encryption on, exactly the texts without a leading byte order mark round-trip. */
  lemma FieldRoundTrip(s: Settings, entityType: string, plaintext: string, nonce: nat)
    requires Lawful(s.cipher) && s.enabled
    ensures DecryptField(s, entityType, EncryptField(s, entityType, plaintext, nonce)) == Some(plaintext)
      <==> !StartsWithBom(plaintext)
  {
    FieldReadsBack(s, entityType, plaintext, nonce);
  }

  /** With encryption off both directions pass everything through. */
  lemma DisabledPassesThrough(s: Settings, entityType: string, value: string, nonce: nat)
    requires !s.enabled
    ensures EncryptField(s, entityType, value, nonce) == value
    ensures DecryptField(s, entityType, value) == Some(value)
  {
  }

  /** A text with a leading byte order mark is read back without it. */
  lemma BomIsLost(s: Settings, nonce: nat)
    requires Lawful(s.cipher) && s.enabled
    ensures DecryptField(s, "email", EncryptField(s, "email", [BOM, 'a'], nonce)) == Some("a")
  {
    FieldReadsBack(s, "email", [BOM, 'a'], nonce);
  }

  // ---------------------------------------------------------------------------
  // The properties of a record
  // ---------------------------------------------------------------------------

  /** A sensitive field that holds a string. */
  predicate HoldsText(s: Settings, entityType: string, record: Properties, key: string) {
    key in record && record[key].Str? && key in s.fields(entityType)
  }

  /** One initialisation vector per field. */
  type Nonces = string -> nat

  function EncryptValue(s: Settings, entityType: string, record: Properties, key: string, nonces: Nonces): Value
    requires key in record
  {
    if HoldsText(s, entityType, record, key) then Str(EncryptField(s, entityType, record[key].text, nonces(key)))
    else record[key]
  }

  /** Every sensitive string of the record encrypted, everything else as it was. */
  function Encrypted(s: Settings, entityType: string, record: Properties, nonces: Nonces): Properties {
    map key | key in record :: EncryptValue(s, entityType, record, key, nonces)
  }

  predicate Opens(s: Settings, entityType: string, record: Properties, key: string) {
    HoldsText(s, entityType, record, key) ==> DecryptField(s, entityType, record[key].text).Some?
  }

  function DecryptValue(s: Settings, entityType: string, record: Properties, key: string): Value
    requires key in record
  {
    if HoldsText(s, entityType, record, key) then
      var p := DecryptField(s, entityType, record[key].text);
      if p.Some? then Str(p.value) else record[key]
    else record[key]
  }

  /** Every sensitive string of the record decrypted, or an error if one does not open. */
  function Decrypted(s: Settings, entityType: string, record: Properties): Option<Properties> {
    if exists key :: key in record && !Opens(s, entityType, record, key) then None
    else Some(map key | key in record :: DecryptValue(s, entityType, record, key))
  }

  method EncryptProperties(
      s: Settings, entityType: string, record: Properties, nonces: Nonces) returns (result: Properties)
    ensures result == Encrypted(s, entityType, record, nonces)
  {
    if !s.enabled {
      assert record == Encrypted(s, entityType, record, nonces);
      return record;
    }
    var fields := s.fields(entityType);
    result := record;
    for i := 0 to |fields|
      invariant result.Keys == record.Keys
      invariant forall key :: key in record ==>
        result[key] == if key in fields[..i] then EncryptValue(s, entityType, record, key, nonces) else record[key]
    {
      var key := fields[i];
      NotBefore(s, entityType, i);
      if key in result && result[key].Str? {
        result := result[key := Str(EncryptField(s, entityType, result[key].text, nonces(key)))];
      }
    }
    assert fields[..|fields|] == fields;
  }

  /** A field is not among the fields before it. */
  lemma NotBefore(s: Settings, entityType: string, i: nat)
    requires i < |s.fields(entityType)|
    ensures var fields := s.fields(entityType);
      fields[i] !in fields[..i] && fields[..i + 1] == fields[..i] + [fields[i]]
  {
  }

  method DecryptProperties(s: Settings, entityType: string, record: Properties) returns (r: Option<Properties>)
    ensures r == Decrypted(s, entityType, record)
  {
    if !s.enabled {
      assert record == map key | key in record :: DecryptValue(s, entityType, record, key);
      return Some(record);
    }
    var fields := s.fields(entityType);
    var result := record;
    for i := 0 to |fields|
      invariant result.Keys == record.Keys
      invariant forall key :: key in record && key in fields[..i] ==> Opens(s, entityType, record, key)
      invariant forall key :: key in record ==>
        result[key] == if key in fields[..i] then DecryptValue(s, entityType, record, key) else record[key]
    {
      var key := fields[i];
      NotBefore(s, entityType, i);
      if key in result && result[key].Str? {
        var p := DecryptField(s, entityType, result[key].text);
        if p.None? {
          assert !Opens(s, entityType, record, key);
          return None;
        }
        result := result[key := Str(p.value)];
      }
    }
    assert fields[..|fields|] == fields;
    assert result == map key | key in record :: DecryptValue(s, entityType, record, key);
    return Some(result);
  }

  /** No sensitive string of the record starts with a byte order mark. */
  ghost predicate NoBom(s: Settings, entityType: string, record: Properties) {
    forall key :: HoldsText(s, entityType, record, key) ==> !StartsWithBom(record[key].text)
  }

  /** With encryption on, a record reads back as it was written exactly when it has no byte order mark to lose. */
  lemma RecordRoundTrip(s: Settings, entityType: string, record: Properties, nonces: Nonces)
    requires Lawful(s.cipher) && s.enabled
    ensures Decrypted(s, entityType, Encrypted(s, entityType, record, nonces)) == Some(record)
      <==> NoBom(s, entityType, record)
  {
    var stored := Encrypted(s, entityType, record, nonces);
    forall key | key in record
      ensures Opens(s, entityType, stored, key) && ReadsBack(s, entityType, record, stored, key)
    {
      if HoldsText(s, entityType, record, key) {
        FieldReadsBack(s, entityType, record[key].text, nonces(key));
      }
    }
    var read := Decrypted(s, entityType, stored).value;
    if !NoBom(s, entityType, record) {
      var key :| HoldsText(s, entityType, record, key) && StartsWithBom(record[key].text);
      assert ReadsBack(s, entityType, record, stored, key);
      assert read[key] != record[key];
    } else {
      forall key | key in record ensures read[key] == record[key] {
        assert ReadsBack(s, entityType, record, stored, key);
      }
      assert read == record;
    }
  }

  ghost predicate ReadsBack(s: Settings, entityType: string, record: Properties, stored: Properties, key: string)
    requires key in record && key in stored
  {
    DecryptValue(s, entityType, stored, key) ==
    if HoldsText(s, entityType, record, key) then Str(DecodeText(record[key].text)) else record[key]
  }
}
