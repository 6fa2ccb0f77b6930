/** Kind-prefixed UUIDv7 record identifiers (section 5.7 of RFC 9562) and content-addressed artifact identifiers. */
module Ids {
  import opened Wrappers
  import opened Ordering
  import opened Utf8

  datatype IdError =
    | UnknownPrefix | MalformedUuid | WrongUuidVersion | WrongUuidVariant
    | MalformedDigest | TimestampOutOfRange

  const MILLIS_LIMIT := 0x1_0000_0000_0000   // 2^48

  // ---- Lowercase hexadecimal ----

  const HEX := "0123456789abcdef"

  function HexVal(c: char): Option<nat> {
    if '0' <= c <= '9' then Some((c - '0') as nat)
    else if 'a' <= c <= 'f' then Some((c - 'a') as nat + 10)
    else None
  }

  lemma HexInverse(n: nat, c: char)
    ensures n < 16 ==> HexVal(HEX[n]) == Some(n)
    ensures HexVal(c).Some? ==> HexVal(c).value < 16 && HEX[HexVal(c).value] == c
  {
  }

  lemma HexOrder(m: nat, n: nat)
    requires m < n < 16
    ensures HEX[m] < HEX[n]
  {
  }

  function Nibble(bytes: Bytes, i: nat): nat
    requires i < 2 * |bytes|
  {
    if i % 2 == 0 then bytes[i / 2] / 16 else bytes[i / 2] % 16
  }

  function HexText(bytes: Bytes): string {
    seq(2 * |bytes|, p requires 0 <= p < 2 * |bytes| => HEX[Nibble(bytes, p)])
  }

  function DigitOf(c: char): (n: nat)
    ensures n < 16
  {
    match HexVal(c)
    case Some(n) => n % 16
    case None => 0
  }

  predicate AllHex(hex: string) { forall p :: 0 <= p < |hex| ==> HexVal(hex[p]).Some? }

  function HexByte(hex: string, i: nat): Byte
    requires 2 * i + 1 < |hex|
  {
    16 * DigitOf(hex[2 * i]) + DigitOf(hex[2 * i + 1])
  }

  function Unhex(hex: string): (b: Bytes)
    requires |hex| % 2 == 0
    ensures |b| == |hex| / 2 && forall i :: 0 <= i < |b| ==> b[i] == HexByte(hex, i)
  {
    seq(|hex| / 2, i requires 0 <= i < |hex| / 2 => HexByte(hex, i))
  }

  lemma DigitRead(c: char)
    requires HexVal(c).Some?
    ensures HexVal(c).value == DigitOf(c) && HEX[DigitOf(c)] == c
  {
    HexInverse(0, c);
  }

  lemma DigitWritten(n: nat)
    requires n < 16
    ensures HexVal(HEX[n]).Some? && DigitOf(HEX[n]) == n
  {
    HexInverse(n, 'a');
  }

  lemma HexLength(bytes: Bytes)
    ensures |HexText(bytes)| == 2 * |bytes|
  {
  }

  lemma HexRoundTrip(bytes: Bytes)
    ensures AllHex(HexText(bytes)) && Unhex(HexText(bytes)) == bytes
  {
    hide HexVal, DigitOf;
    var hex := HexText(bytes);
    forall p | 0 <= p < |hex| ensures HexVal(hex[p]).Some? && DigitOf(hex[p]) == Nibble(bytes, p) {
      DigitWritten(Nibble(bytes, p));
    }
    forall i | 0 <= i < |bytes| ensures HexByte(hex, i) == bytes[i] {
      assert 2 * i / 2 == i && (2 * i + 1) / 2 == i;
    }
  }

  lemma HexOneSpelling(hex: string)
    requires |hex| % 2 == 0 && AllHex(hex)
    ensures HexText(Unhex(hex)) == hex
  {
    hide HexVal, DigitOf;
    var bytes := Unhex(hex);
    forall p | 0 <= p < |hex| ensures HexText(bytes)[p] == hex[p] {
      assert bytes[p / 2] == HexByte(hex, p / 2);
      assert Nibble(bytes, p) == DigitOf(hex[p]);
      DigitRead(hex[p]);
    }
  }

  /** Where the first differing byte is smaller, the first differing digit is smaller. */
  lemma HexFirstDifference(a: Bytes, b: Bytes, i: nat) returns (p: nat)
    requires |a| == |b| && i < |a| && a[..i] == b[..i] && a[i] < b[i]
    ensures p <= 2 * i + 1 && HexText(a)[..p] == HexText(b)[..p] && HexText(a)[p] < HexText(b)[p]
  {
    p := if a[i] / 16 < b[i] / 16 then 2 * i else 2 * i + 1;
    HexOrder(Nibble(a, p), Nibble(b, p));
    forall q | 0 <= q < p ensures Nibble(a, q) == Nibble(b, q) {
      if q / 2 < i { assert a[..i][q / 2] == b[..i][q / 2]; }
    }
  }

  // ---- Big-endian numbers ----

  function BigEndian(n: nat, k: nat): Bytes {
    if k == 0 then [] else BigEndian(n / 256, k - 1) + [n % 256]
  }

  function FromBigEndian(b: Bytes): nat {
    if b == [] then 0 else 256 * FromBigEndian(b[..|b| - 1]) + b[|b| - 1]
  }

  function Pow256(k: nat): nat {
    if k == 0 then 1 else 256 * Pow256(k - 1)
  }

  lemma {:induction false} BigEndianReads(n: nat, k: nat)
    requires n < Pow256(k)
    ensures |BigEndian(n, k)| == k && FromBigEndian(BigEndian(n, k)) == n
  {
    if k > 0 {
      BigEndianReads(n / 256, k - 1);
      assert BigEndian(n, k)[..k - 1] == BigEndian(n / 256, k - 1);
    }
  }

  lemma SameFront(a: Bytes, b: Bytes, x: Byte, y: Byte, i: nat)
    requires i <= |a| == |b| && a[..i] == b[..i]
    ensures (a + [x])[..i] == (b + [y])[..i]
    ensures i < |a| ==> (a + [x])[i] == a[i] && (b + [y])[i] == b[i]
  {
  }

  lemma LastByteDecides(m: nat, n: nat)
    requires m < n
    ensures m / 256 < n / 256 || (m / 256 == n / 256 && m % 256 < n % 256)
  {
  }

  /** A smaller number has a smaller byte at the first place the two differ. */
  lemma {:induction false} FirstDifference(m: nat, n: nat, k: nat) returns (i: nat)
    requires m < n < Pow256(k)
    ensures |BigEndian(m, k)| == |BigEndian(n, k)| == k
    ensures i < k && BigEndian(m, k)[..i] == BigEndian(n, k)[..i] && BigEndian(m, k)[i] < BigEndian(n, k)[i]
    decreases k
  {
    BigEndianReads(m, k);
    BigEndianReads(n, k);
    BigEndianReads(m / 256, k - 1);
    BigEndianReads(n / 256, k - 1);
    LastByteDecides(m, n);
    var a, b := BigEndian(m / 256, k - 1), BigEndian(n / 256, k - 1);
    if m / 256 < n / 256 {
      i := FirstDifference(m / 256, n / 256, k - 1);
    } else {
      i := k - 1;
    }
    hide FromBigEndian, Pow256;
    SameFront(a, b, m % 256, n % 256, i);
  }

  // ---- UUIDv7 ----

  datatype Uuid7 = Uuid7(bytes: Bytes)

  predicate ValidUuid(u: Uuid7) {
    |u.bytes| == 16 && u.bytes[6] / 16 == 7 && u.bytes[8] / 64 == 2
  }

  predicate IsDash(pos: nat) { pos == 8 || pos == 13 || pos == 18 || pos == 23 }

  function DashesBefore(pos: nat): nat {
    if pos <= 8 then 0 else if pos <= 13 then 1 else if pos <= 18 then 2 else if pos <= 23 then 3 else 4
  }

  /** Where hex digit `n` stands in the hyphenated form. */
  function Position(n: nat): nat {
    if n < 8 then n else if n < 12 then n + 1 else if n < 16 then n + 2 else if n < 20 then n + 3 else n + 4
  }

  function Hyphenate(hex: string): (text: string)
    requires |hex| == 32
    ensures |text| == 36
  {
    seq(36, pos requires 0 <= pos < 36 => if IsDash(pos) then '-' else hex[pos - DashesBefore(pos)])
  }

  function Unhyphenate(text: string): (hex: string)
    requires |text| == 36
    ensures |hex| == 32
  {
    seq(32, n requires 0 <= n < 32 => text[Position(n)])
  }

  lemma HyphensInverse(hex: string)
    requires |hex| == 32
    ensures Unhyphenate(Hyphenate(hex)) == hex
  {
  }

  lemma UnhyphenatedAt(text: string, pos: nat)
    requires |text| == 36 && pos < 36 && !IsDash(pos)
    ensures 0 <= pos - DashesBefore(pos) < 32 && Unhyphenate(text)[pos - DashesBefore(pos)] == text[pos]
  {
  }

  function UuidText(bytes: Bytes): string
    requires |bytes| == 16
    ensures |UuidText(bytes)| == 36
  {
    Hyphenate(HexText(bytes))
  }

  predicate WellShaped(text: string) {
    && |text| == 36
    && text[8] == '-' && text[13] == '-' && text[18] == '-' && text[23] == '-'
    && AllHex(Unhyphenate(text))
  }

  function ParseUuid(text: string): Result<Uuid7, IdError> {
    if !WellShaped(text) then Err(MalformedUuid)
    else
      var bytes := Unhex(Unhyphenate(text));
      if bytes[6] / 16 != 7 then Err(WrongUuidVersion)
      else if bytes[8] / 64 != 2 then Err(WrongUuidVariant)
      else Ok(Uuid7(bytes))
  }

  /** The parser itself: checks the digits into an array, then the version and variant. */
  method ReadUuid(text: string) returns (r: Result<Uuid7, IdError>)
    ensures r == ParseUuid(text)
  {
    if |text| != 36 { return Err(MalformedUuid); }
    var bytes := new Byte[16](_ => 0);
    var ok := ReadDigits(text, bytes);
    if !ok { return Err(MalformedUuid); }
    if bytes[6] / 16 != 7 { return Err(WrongUuidVersion); }
    if bytes[8] / 64 != 2 { return Err(WrongUuidVariant); }
    r := Ok(Uuid7(bytes[..]));
  }

  /** Fills the array two digits at a time while stepping over the hyphens. */
  method ReadDigits(text: string, bytes: array<Byte>) returns (ok: bool)
    requires |text| == 36 && bytes.Length == 16
    modifies bytes
    ensures ok == WellShaped(text)
    ensures ok ==> bytes[..] == Unhex(Unhyphenate(text))
  {
    hide HexVal, DigitOf, Unhyphenate, HexByte;
    ghost var hex := Unhyphenate(text);
    var nibble := 0;
    for pos := 0 to 36
      invariant nibble == pos - DashesBefore(pos)
      invariant forall p :: 0 <= p < pos && IsDash(p) ==> text[p] == '-'
      invariant forall n :: 0 <= n < nibble ==> HexVal(hex[n]).Some?
      invariant forall i :: 0 <= i < nibble / 2 ==> bytes[i] == HexByte(hex, i)
      invariant nibble % 2 == 1 ==> bytes[nibble / 2] == 16 * DigitOf(hex[nibble - 1])
    {
      if pos == 8 || pos == 13 || pos == 18 || pos == 23 {
        if text[pos] != '-' { return false; }
      } else {
        UnhyphenatedAt(text, pos);
        var value := HexVal(text[pos]);
        if value.None? { return false; }
        DigitRead(text[pos]);
        if nibble % 2 == 0 {
          bytes[nibble / 2] := 16 * value.value;
        } else {
          HexByteEnding(hex, nibble);
          bytes[nibble / 2] := bytes[nibble / 2] + value.value;   // the low nibble is still zero
        }
        nibble := nibble + 1;
      }
    }
    ok := true;
  }

  lemma HexByteEnding(hex: string, n: nat)
    requires n < |hex| && n % 2 == 1
    ensures HexByte(hex, n / 2) == 16 * DigitOf(hex[n - 1]) + DigitOf(hex[n])
  {
  }

  /** The display itself: appends a hyphen before bytes 4, 6, 8 and 10. */
  method WriteUuid(u: Uuid7) returns (out: string)
    requires |u.bytes| == 16
    ensures out == UuidText(u.bytes)
  {
    hide UuidText, Position;
    ghost var text := UuidText(u.bytes);
    out := "";
    for i := 0 to 16
      invariant |out| == (if i == 0 then 0 else Position(2 * i - 1) + 1) <= 36
      invariant out == text[..|out|]
    {
      DigitsOfByte(u.bytes, i);
      if i == 4 || i == 6 || i == 8 || i == 10 { out := out + "-"; }
      assert out == text[..Position(2 * i)];
      out := out + [HEX[u.bytes[i] / 16], HEX[u.bytes[i] % 16]];
    }
    DigitsOfByte(u.bytes, 15);
  }

  lemma DigitsOfByte(bytes: Bytes, i: nat)
    requires |bytes| == 16 && i < 16
    ensures Position(2 * i + 1) == Position(2 * i) + 1 < 36 && Position(0) == 0 && Position(31) == 35
    ensures i > 0 ==> Position(2 * i) == Position(2 * i - 1) + 1 + (if i in {4, 6, 8, 10} then 1 else 0)
    ensures i in {4, 6, 8, 10} ==> UuidText(bytes)[Position(2 * i) - 1] == '-'
    ensures UuidText(bytes)[Position(2 * i)] == HEX[bytes[i] / 16]
    ensures UuidText(bytes)[Position(2 * i) + 1] == HEX[bytes[i] % 16]
  {
    assert HexText(bytes)[2 * i] == HEX[bytes[i] / 16] && HexText(bytes)[2 * i + 1] == HEX[bytes[i] % 16];
  }

  lemma HyphensPlaced(hex: string)
    requires |hex| == 32
    ensures Hyphenate(hex)[8] == Hyphenate(hex)[13] == Hyphenate(hex)[18] == Hyphenate(hex)[23] == '-'
  {
  }

  lemma Rehyphenated(text: string)
    requires |text| == 36 && text[8] == '-' && text[13] == '-' && text[18] == '-' && text[23] == '-'
    ensures Hyphenate(Unhyphenate(text)) == text
  {
    forall pos | 0 <= pos < 36 && !IsDash(pos) ensures Hyphenate(Unhyphenate(text))[pos] == text[pos] {
      UnhyphenatedAt(text, pos);
    }
  }

  /** Every valid UUIDv7 survives printing and parsing. */
  lemma UuidRoundTrip(u: Uuid7)
    requires ValidUuid(u)
    ensures ParseUuid(UuidText(u.bytes)) == Ok(u)
  {
    hide HexText, Unhex, Hyphenate, Unhyphenate, HexVal;
    HexLength(u.bytes);
    HexRoundTrip(u.bytes);
    HyphensInverse(HexText(u.bytes));
    HyphensPlaced(HexText(u.bytes));
  }

  /** A text that parses is the one canonical spelling of its value. */
  lemma UuidOneSpelling(text: string)
    requires ParseUuid(text).Ok?
    ensures ValidUuid(ParseUuid(text).value) && UuidText(ParseUuid(text).value.bytes) == text
  {
    hide HexVal;
    HexOneSpelling(Unhyphenate(text));
    Rehyphenated(text);
  }

  // ---- Building from a clock ----

  function FromParts(unixMillis: nat, random: Bytes): Result<Uuid7, IdError>
    requires |random| == 10
  {
    if unixMillis >= MILLIS_LIMIT then Err(TimestampOutOfRange)
    else Ok(Uuid7(BigEndian(unixMillis, 6) + [0x70 + random[0] % 16, random[1], 0x80 + random[2] % 64] + random[3..]))
  }

  function UuidMillis(u: Uuid7): nat
    requires |u.bytes| == 16
  {
    FromBigEndian(u.bytes[..6])
  }

  lemma MillisLimit()
    ensures Pow256(6) == MILLIS_LIMIT
  {
    assert Pow256(2) == 0x1_0000 && Pow256(4) == 0x1_0000_0000;
  }

  /** A generated UUID is well formed and carries exactly the clock's millisecond. */
  lemma FromPartsExact(unixMillis: nat, random: Bytes)
    requires |random| == 10
    ensures FromParts(unixMillis, random).Ok? <==> unixMillis < MILLIS_LIMIT
    ensures unixMillis < MILLIS_LIMIT ==>
              var u := FromParts(unixMillis, random).value; ValidUuid(u) && UuidMillis(u) == unixMillis
  {
    hide FromBigEndian, BigEndian;
    if unixMillis < MILLIS_LIMIT {
      MillisLimit();
      BigEndianReads(unixMillis, 6);
      var u := FromParts(unixMillis, random).value;
      assert u.bytes[..6] == BigEndian(unixMillis, 6);
    }
  }

  /** Texts that agree before a position and are ordered there are ordered. */
  lemma {:induction false} LessAt(a: string, b: string, p: nat)
    requires p < |a| && p < |b| && a[..p] == b[..p] && a[p] < b[p]
    ensures Less(a, b)
  {
    if p > 0 {
      assert a[0] == a[..p][0] == b[..p][0] == b[0];
      assert a[1..][..p - 1] == a[..p][1..] == b[..p][1..] == b[1..][..p - 1];
      LessAt(a[1..], b[1..], p - 1);
    }
  }

  /** Identifiers sort as text by creation millisecond, whatever their random parts. */
  lemma EarlierMillisSmallerText(m: nat, rm: Bytes, n: nat, rn: Bytes)
    requires |rm| == 10 && |rn| == 10 && m < n < MILLIS_LIMIT
    ensures FromParts(m, rm).Ok? && FromParts(n, rn).Ok?
    ensures |FromParts(m, rm).value.bytes| == 16 && |FromParts(n, rn).value.bytes| == 16
    ensures Less(UuidText(FromParts(m, rm).value.bytes), UuidText(FromParts(n, rn).value.bytes))
  {
    hide BigEndian;
    MillisLimit();
    BigEndianReads(m, 6);
    BigEndianReads(n, 6);
    var i := FirstDifference(m, n, 6);
    var a, b := FromParts(m, rm).value.bytes, FromParts(n, rn).value.bytes;
    assert a[..i] == BigEndian(m, 6)[..i] && b[..i] == BigEndian(n, 6)[..i];
    assert a[i] == BigEndian(m, 6)[i] && b[i] == BigEndian(n, 6)[i];
    var p := HexFirstDifference(a, b, i);
    HyphensKeepOrder(HexText(a), HexText(b), p);
  }

  lemma HyphensKeepOrder(g: string, h: string, p: nat)
    requires |g| == 32 && |h| == 32 && p < 12
    requires g[..p] == h[..p] && g[p] < h[p]
    ensures Less(Hyphenate(g), Hyphenate(h))
  {
    assert forall q :: 0 <= q < p ==> g[q] == g[..p][q] == h[..p][q] == h[q];
    LessAt(Hyphenate(g), Hyphenate(h), Position(p));
  }

  // ---- Record identifiers ----

  datatype RecordKind =
    | Instance | Note | Extraction | Observation | Entity | Relationship | Proposal | Package | Conflict

  const ALL_KINDS: seq<RecordKind> :=
    [Instance, Note, Extraction, Observation, Entity, Relationship, Proposal, Package, Conflict]

  function Prefix(kind: RecordKind): string {
    match kind
    case Instance => "fn_"
    case Note => "note_"
    case Extraction => "ext_"
    case Observation => "obs_"
    case Entity => "ent_"
    case Relationship => "rel_"
    case Proposal => "prop_"
    case Package => "pkg_"
    case Conflict => "conf_"
  }

  datatype RecordId = RecordId(kind: RecordKind, uuid: Uuid7)

  function RecordText(id: RecordId): string
    requires |id.uuid.bytes| == 16
  {
    Prefix(id.kind) + UuidText(id.uuid.bytes)
  }

  /** The first kind in registration order whose prefix the text carries. */
  function FirstKind(text: string, kinds: seq<RecordKind>): Option<RecordKind> {
    if kinds == [] then None
    else if Prefix(kinds[0]) <= text then Some(kinds[0])
    else FirstKind(text, kinds[1..])
  }

  function ParseRecord(text: string): Result<RecordId, IdError> {
    match FirstKind(text, ALL_KINDS)
    case None => Err(UnknownPrefix)
    case Some(kind) =>
      if Prefix(kind) <= text then
        match ParseUuid(text[|Prefix(kind)|..])
        case Err(e) => Err(e)
        case Ok(u) => Ok(RecordId(kind, u))
      else Err(UnknownPrefix)
  }

  lemma {:induction false} FirstKindFound(text: string, kinds: seq<RecordKind>)
    ensures match FirstKind(text, kinds)
            case Some(k) => Prefix(k) <= text
            case None => forall k :: k in kinds ==> !(Prefix(k) <= text)
  {
    if kinds != [] { FirstKindFound(text, kinds[1..]); }
  }

  lemma EveryKindListed(kind: RecordKind)
    ensures kind in ALL_KINDS
  {
    assert ALL_KINDS[0] == Instance && ALL_KINDS[1] == Note && ALL_KINDS[2] == Extraction;
    assert ALL_KINDS[3] == Observation && ALL_KINDS[4] == Entity && ALL_KINDS[5] == Relationship;
    assert ALL_KINDS[6] == Proposal && ALL_KINDS[7] == Package && ALL_KINDS[8] == Conflict;
  }

  /** No text carries two kinds' prefixes, so registration order never matters. */
  lemma PrefixesUnambiguous(text: string, a: RecordKind, b: RecordKind)
    requires Prefix(a) <= text && Prefix(b) <= text
    ensures a == b
  {
    assert text[..2] == Prefix(a)[..2] == Prefix(b)[..2];
    assert Prefix(a)[0] == Prefix(b)[0] && Prefix(a)[1] == Prefix(b)[1];
    assert text[2] == Prefix(a)[2] == Prefix(b)[2];
  }

  lemma RecordRoundTrip(id: RecordId)
    requires ValidUuid(id.uuid)
    ensures ParseRecord(RecordText(id)) == Ok(id)
  {
    hide UuidText, ParseUuid;
    var text := RecordText(id);
    EveryKindListed(id.kind);
    FirstKindFound(text, ALL_KINDS);
    PrefixesUnambiguous(text, id.kind, FirstKind(text, ALL_KINDS).value);
    assert text[|Prefix(id.kind)|..] == UuidText(id.uuid.bytes);
    UuidRoundTrip(id.uuid);
  }

  lemma RecordOneSpelling(text: string)
    requires ParseRecord(text).Ok?
    ensures ValidUuid(ParseRecord(text).value.uuid) && RecordText(ParseRecord(text).value) == text
  {
    hide UuidText, ParseUuid;
    var kind := FirstKind(text, ALL_KINDS).value;
    UuidOneSpelling(text[|Prefix(kind)|..]);
    assert text == Prefix(kind) + text[|Prefix(kind)|..];
  }

  // ---- Artifact identifiers ----

  const ARTIFACT_PREFIX := "artifact_sha256_"

  function ArtifactText(digest: Bytes): string { ARTIFACT_PREFIX + HexText(digest) }

  function ParseArtifact(text: string): Result<Bytes, IdError> {
    if !(ARTIFACT_PREFIX <= text) then Err(UnknownPrefix)
    else
      var hex := text[|ARTIFACT_PREFIX|..];
      if |hex| != 64 || !AllHex(hex) then Err(MalformedDigest) else Ok(Unhex(hex))
  }

  /** The parser itself: fills the digest pair by pair. */
  method ReadArtifact(text: string) returns (r: Result<Bytes, IdError>)
    ensures r == ParseArtifact(text)
  {
    if !(ARTIFACT_PREFIX <= text) { return Err(UnknownPrefix); }
    var hex := text[|ARTIFACT_PREFIX|..];
    if |hex| != 64 { return Err(MalformedDigest); }
    hide HexVal, DigitOf;
    var digest := new Byte[32](_ => 0);
    for index := 0 to 32
      invariant forall p :: 0 <= p < 2 * index ==> HexVal(hex[p]).Some?
      invariant forall i :: 0 <= i < index ==> digest[i] == HexByte(hex, i)
    {
      var hi, lo := HexVal(hex[2 * index]), HexVal(hex[2 * index + 1]);
      if hi.None? || lo.None? { return Err(MalformedDigest); }
      DigitRead(hex[2 * index]);
      DigitRead(hex[2 * index + 1]);
      digest[index] := 16 * hi.value + lo.value;
    }
    assert digest[..] == Unhex(hex);
    r := Ok(digest[..]);
  }

  /** Artifact identifiers parse and print as mutual inverses. */
  lemma ArtifactRoundTrip(digest: Bytes)
    requires |digest| == 32
    ensures ParseArtifact(ArtifactText(digest)) == Ok(digest)
  {
    hide HexText, Unhex;
    HexRoundTrip(digest);
    HexLength(digest);
    assert ArtifactText(digest)[|ARTIFACT_PREFIX|..] == HexText(digest);
  }

  lemma ArtifactOneSpelling(text: string)
    requires ParseArtifact(text).Ok?
    ensures |ParseArtifact(text).value| == 32 && ArtifactText(ParseArtifact(text).value) == text
  {
    hide HexVal;
    HexOneSpelling(text[|ARTIFACT_PREFIX|..]);
    assert text == ARTIFACT_PREFIX + text[|ARTIFACT_PREFIX|..];
  }
}
