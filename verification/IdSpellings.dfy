/** The spellings of identifiers, character by character, and what is wrong with other texts. */
module IdSpellings {
  import opened Wrappers
  import opened Utf8
  import opened Ids

  function HexDigit(n: nat): char
    requires n < 16
  {
    if n < 10 then ('0' as int + n) as char else ('a' as int + n - 10) as char
  }

  /** How many hyphens stand before the `n`th of the thirty-two digits. */
  function HyphensBefore(n: nat): nat
  {
    (if n >= 8 then 1 else 0) + (if n >= 12 then 1 else 0) + (if n >= 16 then 1 else 0) + (if n >= 20 then 1 else 0)
  }

  lemma HexDigitExactly(n: nat)
    requires n < 16
    ensures HEX[n] == HexDigit(n)
  {
  }

  lemma PositionExactly(n: nat)
    requires n < 32
    ensures Position(n) == n + HyphensBefore(n) < 36 && !IsDash(Position(n))
    ensures Position(n) - DashesBefore(Position(n)) == n
  {
  }

  /** A UUID is written as thirty-two lowercase digits, high nibble first, in groups of 8, 4, 4, 4 and 12. */
  lemma UuidExactly(bytes: Bytes, i: nat)
    requires |bytes| == 16 && i < 16
    ensures var text := UuidText(bytes);
            |text| == 36 && text[8] == text[13] == text[18] == text[23] == '-'
            && 2 * i + 1 + HyphensBefore(2 * i + 1) < 36
            && text[2 * i + HyphensBefore(2 * i)] == HexDigit(bytes[i] / 16)
            && text[2 * i + 1 + HyphensBefore(2 * i + 1)] == HexDigit(bytes[i] % 16)
  {
    PositionExactly(2 * i);
    PositionExactly(2 * i + 1);
    DigitsOfByte(bytes, i);
    HexDigitExactly(bytes[i] / 16);
    HexDigitExactly(bytes[i] % 16);
    hide Position, HyphensBefore, HexDigit, HexText, DashesBefore;
    HexLength(bytes);
    HyphensPlaced(HexText(bytes));
  }

  predicate IsHex(c: char) { '0' <= c <= '9' || 'a' <= c <= 'f' }

  predicate IsHyphenAt(pos: nat) { pos == 8 || pos == 13 || pos == 18 || pos == 23 }

  /** What is wrong with a UUID's text: its shape, its version digit, or its variant digit. */
  function UuidTrouble(text: string): Option<IdError> {
    if |text| != 36 || exists pos :: 0 <= pos < 36 && (if IsHyphenAt(pos) then text[pos] != '-' else !IsHex(text[pos]))
    then Some(MalformedUuid)
    else if text[14] != '7' then Some(WrongUuidVersion)
    else if !(text[19] == '8' || text[19] == '9' || text[19] == 'a' || text[19] == 'b') then Some(WrongUuidVariant)
    else None
  }

  lemma HexExactly(c: char)
    ensures HexVal(c).Some? <==> IsHex(c)
    ensures IsHex(c) ==> (DigitOf(c) == 7 <==> c == '7')
    ensures IsHex(c) ==> (8 <= DigitOf(c) < 12 <==> c == '8' || c == '9' || c == 'a' || c == 'b')
  {
  }

  lemma ShapeExactly(text: string)
    requires |text| == 36
    ensures WellShaped(text)
            <==> forall pos :: 0 <= pos < 36 ==> if IsHyphenAt(pos) then text[pos] == '-' else IsHex(text[pos])
  {
    hide HexVal, IsHex;
    forall pos | 0 <= pos < 36 && !IsHyphenAt(pos)
      ensures exists n: nat :: n < 32 && Position(n) == pos
      ensures HexVal(text[pos]).Some? <==> IsHex(text[pos])
    {
      HexExactly(text[pos]);
      assert Position(pos - DashesBefore(pos)) == pos;
    }
    forall n: nat | n < 32
      ensures Position(n) < 36 && !IsHyphenAt(Position(n)) && Unhyphenate(text)[n] == text[Position(n)]
    {
      PositionExactly(n);
    }
  }

  /** A text that is no UUIDv7 is refused with the first thing wrong with it. */
  lemma UuidTroubleExactly(text: string)
    ensures match UuidTrouble(text)
            case Some(error) => ParseUuid(text) == Err(error)
            case None => ParseUuid(text).Ok?
  {
    if |text| == 36 {
      ShapeExactly(text);
      HexExactly(text[14]);
      HexExactly(text[19]);
      hide WellShaped, IsHex, HexVal;
      assert Unhyphenate(text)[12] == text[14] && Unhyphenate(text)[16] == text[19];
      if WellShaped(text) { VersionAndVariant(Unhyphenate(text)); }
    }
  }

  lemma VersionAndVariant(hex: string)
    requires |hex| == 32
    ensures Unhex(hex)[6] / 16 == DigitOf(hex[12])
    ensures Unhex(hex)[8] / 64 == 2 <==> 8 <= DigitOf(hex[16]) < 12
  {
    assert Unhex(hex)[6] == HexByte(hex, 6) && Unhex(hex)[8] == HexByte(hex, 8);
  }

  /** A record identifier is its kind's prefix and its UUID. */
  lemma RecordExactly(uuid: Uuid7)
    requires |uuid.bytes| == 16
    ensures var text := UuidText(uuid.bytes);
            RecordText(RecordId(Instance, uuid)) == "fn_" + text
            && RecordText(RecordId(RecordKind.Note, uuid)) == "note_" + text
            && RecordText(RecordId(Extraction, uuid)) == "ext_" + text
            && RecordText(RecordId(Observation, uuid)) == "obs_" + text
            && RecordText(RecordId(Entity, uuid)) == "ent_" + text
            && RecordText(RecordId(Relationship, uuid)) == "rel_" + text
            && RecordText(RecordId(Proposal, uuid)) == "prop_" + text
            && RecordText(RecordId(Package, uuid)) == "pkg_" + text
            && RecordText(RecordId(Conflict, uuid)) == "conf_" + text
  {
    hide UuidText;
  }

  /** An artifact identifier is its prefix and two lowercase digits for each byte of the digest. */
  lemma ArtifactExactly(digest: Bytes, i: nat)
    requires i < |digest|
    ensures var text := ArtifactText(digest);
            |text| == 16 + 2 * |digest| && text[..16] == "artifact_sha256_"
            && text[16 + 2 * i] == HexDigit(digest[i] / 16) && text[17 + 2 * i] == HexDigit(digest[i] % 16)
  {
    HexDigitExactly(digest[i] / 16);
    HexDigitExactly(digest[i] % 16);
    hide HexDigit;
    assert HexText(digest)[2 * i] == HEX[digest[i] / 16] && HexText(digest)[2 * i + 1] == HEX[digest[i] % 16];
  }

  /** A minted UUID keeps every random bit that its version and variant leave room for. */
  lemma RandomBitsKept(unixMillis: nat, random: Bytes, i: nat)
    requires |random| == 10 && unixMillis < 0x1_0000_0000_0000 && 3 <= i < 10
    ensures FromParts(unixMillis, random).Ok? && |FromParts(unixMillis, random).value.bytes| == 16
    ensures var b := FromParts(unixMillis, random).value.bytes;
            b[6] % 16 == random[0] % 16 && b[7] == random[1] && b[8] % 64 == random[2] % 64 && b[6 + i] == random[i]
  {
    MillisLimit();
    BigEndianReads(unixMillis, 6);
    hide BigEndian;
  }

  // ---- What is wrong with a text that is no identifier ----

  /** The UUID's text behind one of the nine prefixes. */
  predicate Prefixed(text: string, uuid: string) {
    || text == "fn_" + uuid || text == "note_" + uuid || text == "ext_" + uuid || text == "obs_" + uuid
    || text == "ent_" + uuid || text == "rel_" + uuid || text == "prop_" + uuid || text == "pkg_" + uuid
    || text == "conf_" + uuid
  }

  lemma PrefixedExactly(text: string, uuid: string)
    ensures Prefixed(text, uuid) <==> exists kind :: text == Prefix(kind) + uuid
  {
    forall kind | text == Prefix(kind) + uuid ensures Prefixed(text, uuid) {
    }
    if Prefixed(text, uuid) {
      assert text == Prefix(Instance) + uuid || text == Prefix(RecordKind.Note) + uuid
             || text == Prefix(Extraction) + uuid || text == Prefix(Observation) + uuid
             || text == Prefix(Entity) + uuid || text == Prefix(Relationship) + uuid
             || text == Prefix(Proposal) + uuid || text == Prefix(Package) + uuid
             || text == Prefix(Conflict) + uuid;
    }
  }

  /** A record identifier is refused for its prefix, or for what is wrong with the UUID behind it. */
  lemma RecordTroubleExactly(text: string, uuid: string)
    ensures (forall rest :: !Prefixed(text, rest)) ==> ParseRecord(text) == Err(UnknownPrefix)
    ensures Prefixed(text, uuid) ==>
              match UuidTrouble(uuid)
              case Some(error) => ParseRecord(text) == Err(error)
              case None => ParseRecord(text).Ok?
  {
    FirstKindFound(text, ALL_KINDS);
    PrefixedExactly(text, uuid);
    hide Prefixed, ParseUuid, UuidTrouble;
    match FirstKind(text, ALL_KINDS)
    case None =>
      forall kind: RecordKind ensures text != Prefix(kind) + uuid {
        EveryKindListed(kind);
        assert text == Prefix(kind) + uuid ==> Prefix(kind) <= text;
      }
    case Some(kind) =>
      var rest := text[|Prefix(kind)|..];
      assert text == Prefix(kind) + rest;
      PrefixedExactly(text, rest);
      UuidTroubleExactly(rest);
      if other :| text == Prefix(other) + uuid {
        PrefixesUnambiguous(text, kind, other);
        assert uuid == rest;
      }
  }

  /** An artifact identifier is refused for its prefix, or for anything but sixty-four lowercase digits behind it. */
  lemma ArtifactTroubleExactly(text: string)
    ensures ParseArtifact(text)
         == if |text| < 16 || text[..16] != "artifact_sha256_" then Err(UnknownPrefix)
            else if |text| != 80 || exists k :: 16 <= k < 80 && !IsHex(text[k]) then Err(MalformedDigest)
            else Ok(Unhex(text[16..]))
  {
    hide HexVal, IsHex, Unhex;
    assert ARTIFACT_PREFIX <= text <==> |text| >= 16 && text[..16] == "artifact_sha256_";
    if |text| == 80 {
      var hex := text[16..];
      forall k | 16 <= k < 80 ensures hex[k - 16] == text[k] && (HexVal(hex[k - 16]).Some? <==> IsHex(text[k])) {
        HexExactly(text[k]);
      }
    }
  }
}
