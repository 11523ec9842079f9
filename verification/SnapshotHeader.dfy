/** The header of a snapshot file: 76 bytes naming the format, the counts and the file's own length. */
module SnapshotHeader {
  import opened Vocabulary
  import opened SnapshotBytes

  const HEADER_LEN := 76
  const REQUIRED_SECTION_COUNT := 11
  const DIGEST_LEN := 32
  const U64_LIMIT := 0x1_0000_0000_0000_0000
  const MAGIC_PREFIX: seq<byte> := [0x53, 0x5A, 0x53, 0x4E, 0x41, 0x50, 0]

  // The kinds of sections, in the order they are written.
  const SCHEMA := 1
  const SYMBOL_BYTES := 2
  const SYMBOL_TABLE := 3
  const RELATIONSHIP_ROWS := 4
  const INDEX_DIRECTORY := 5
  const INDEX_KEYS := 6
  const POSTING_RANGES := 7
  const POSTING_ROW_IDS := 8
  const SYMBOL_HASHES := 9
  const SYMBOL_LOOKUP := 10
  const FOOTER := 11

  datatype FormatVersion = V2 | V3 {
    function Raw(): byte { if V2? then 2 else 3 }

    function Magic(): seq<byte> { MAGIC_PREFIX + [Raw()] }
  }

  function VersionFrom(magic: seq<byte>, raw: nat): Result<FormatVersion, FormatError> {
    if magic == V2.Magic() && raw == 2 then Ok(V2)
    else if magic == V3.Magic() && raw == 3 then Ok(V3)
    else Err(UnsupportedVersion)
  }

  /** Which indexes a snapshot holds. */
  datatype IndexProfile = AllIndexes | CheckOnly | CheckAndObjectAudit {
    function FlagBits(): nat {
      match this
      case AllIndexes => 0
      case CheckOnly => 1
      case CheckAndObjectAudit => 2
    }
  }

  function ProfileFrom(bits: nat): Result<IndexProfile, FormatError> {
    match bits
    case 0 => Ok(AllIndexes)
    case 1 => Ok(CheckOnly)
    case 2 => Ok(CheckAndObjectAudit)
    case _ => Err(UnsupportedProfile)
  }

  datatype Header = Header(
    version: FormatVersion,
    profile: IndexProfile,
    schemaHash: seq<byte>,
    relationshipCount: nat,
    symbolCount: nat,
    revision: nat)

  function HeaderBytes(h: Header, fileLen: nat): seq<byte> {
    h.version.Magic() + EncodeLE(h.version.Raw(), 2) + EncodeLE(h.profile.FlagBits(), 2)
    + EncodeLE(HEADER_LEN, 4) + EncodeLE(REQUIRED_SECTION_COUNT, 4) + EncodeLE(fileLen, 8) + h.schemaHash
    + EncodeLE(h.relationshipCount, 4) + EncodeLE(h.symbolCount, 4) + EncodeLE(h.revision, 8)
  }

  predicate HeaderFits(h: Header, fileLen: nat) {
    && |h.schemaHash| == DIGEST_LEN && fileLen < U64_LIMIT
    && h.relationshipCount < U32_LIMIT && h.symbolCount < U32_LIMIT && 0 < h.revision < U64_LIMIT
  }

  /** The file begins with this header, which states the file's own length. */
  ghost predicate HeaderOf(bytes: seq<byte>, h: Header) {
    |bytes| >= HEADER_LEN && HeaderFits(h, |bytes|) && bytes[..HEADER_LEN] == HeaderBytes(h, |bytes|)
  }

  // ---------------------------------------------------------------- fields

  function FieldAt(bytes: seq<byte>, at: nat, width: nat): nat
    requires at + width <= |bytes|
  {
    DecodeLE(bytes[at..at + width])
  }

  /** The fields of a header, where they lie. */
  predicate HasFields(bytes: seq<byte>, h: Header)
    requires |bytes| >= HEADER_LEN
  {
    && bytes[..8] == h.version.Magic() && FieldAt(bytes, 8, 2) == h.version.Raw() && FieldAt(bytes, 10, 2) == h.profile.FlagBits()
    && FieldAt(bytes, 12, 4) == HEADER_LEN && FieldAt(bytes, 16, 4) == REQUIRED_SECTION_COUNT
    && FieldAt(bytes, 20, 8) == |bytes| && bytes[28..60] == h.schemaHash
    && FieldAt(bytes, 60, 4) == h.relationshipCount && FieldAt(bytes, 64, 4) == h.symbolCount && FieldAt(bytes, 68, 8) == h.revision
  }

  lemma Powers()
    ensures Pow256(2) == 0x1_0000 && Pow256(4) == U32_LIMIT && Pow256(8) == U64_LIMIT
  {
    assert Pow256(0) == 1 && Pow256(1) == 0x100 && Pow256(3) == 0x100_0000;
    assert Pow256(5) == 0x100_0000_0000 && Pow256(6) == 0x1_0000_0000_0000 && Pow256(7) == 0x100_0000_0000_0000;
  }

  lemma LastPart(bytes: seq<byte>, before: seq<byte>, field: seq<byte>, end: nat)
    requires end <= |bytes| && bytes[..end] == before + field
    ensures bytes[..|before|] == before && bytes[|before|..end] == field && end == |before| + |field|
  {
    assert bytes[..|before|] == bytes[..end][..|before|] && bytes[|before|..end] == bytes[..end][|before|..];
  }

  /** An encoded value at the end of a prefix is read back. */
  lemma LastValue(bytes: seq<byte>, before: seq<byte>, value: nat, width: nat, end: nat)
    requires end <= |bytes| && bytes[..end] == before + EncodeLE(value, width) && value < Pow256(width)
    ensures end == |before| + width && bytes[..|before|] == before && FieldAt(bytes, |before|, width) == value
  {
    hide EncodeLE, DecodeLE, Pow256;
    EncodedLength(value, width);
    LastPart(bytes, before, EncodeLE(value, width), end);
    LittleEndianRoundTrip(value, width);
  }

  lemma HeaderHasFields(bytes: seq<byte>, h: Header)
    requires HeaderOf(bytes, h)
    ensures |bytes| >= HEADER_LEN && HasFields(bytes, h)
  {
    hide EncodeLE, DecodeLE, Pow256, FieldAt;
    Powers();
    var one := h.version.Magic();
    var two := one + EncodeLE(h.version.Raw(), 2);
    var three := two + EncodeLE(h.profile.FlagBits(), 2);
    var four := three + EncodeLE(HEADER_LEN, 4);
    var five := four + EncodeLE(REQUIRED_SECTION_COUNT, 4);
    var six := five + EncodeLE(|bytes|, 8);
    var seven := six + h.schemaHash;
    var eight := seven + EncodeLE(h.relationshipCount, 4);
    var nine := eight + EncodeLE(h.symbolCount, 4);
    LastValue(bytes, nine, h.revision, 8, 76);
    LastValue(bytes, eight, h.symbolCount, 4, 68);
    LastValue(bytes, seven, h.relationshipCount, 4, 64);
    LastPart(bytes, six, h.schemaHash, 60);
    LastValue(bytes, five, |bytes|, 8, 28);
    LastValue(bytes, four, REQUIRED_SECTION_COUNT, 4, 20);
    LastValue(bytes, three, HEADER_LEN, 4, 16);
    LastValue(bytes, two, h.profile.FlagBits(), 2, 12);
    LastValue(bytes, one, h.version.Raw(), 2, 10);
  }

  lemma NextValue(bytes: seq<byte>, before: seq<byte>, at: nat, width: nat)
    requires at + width <= |bytes| && bytes[..at] == before
    ensures bytes[..at + width] == before + EncodeLE(FieldAt(bytes, at, width), width)
    ensures FieldAt(bytes, at, width) < Pow256(width)
  {
    hide EncodeLE, DecodeLE, Pow256;
    LittleEndianReadsBack(bytes[at..at + width]);
    assert bytes[..at + width] == bytes[..at] + bytes[at..at + width];
  }

  lemma FieldsMakeHeader(bytes: seq<byte>, h: Header)
    requires |bytes| >= HEADER_LEN && HasFields(bytes, h) && h.revision > 0
    ensures HeaderOf(bytes, h)
  {
    hide EncodeLE, DecodeLE, Pow256, FieldAt;
    Powers();
    var one := h.version.Magic();
    var two := one + EncodeLE(h.version.Raw(), 2);
    var three := two + EncodeLE(h.profile.FlagBits(), 2);
    var four := three + EncodeLE(HEADER_LEN, 4);
    var five := four + EncodeLE(REQUIRED_SECTION_COUNT, 4);
    var six := five + EncodeLE(|bytes|, 8);
    var seven := six + h.schemaHash;
    var eight := seven + EncodeLE(h.relationshipCount, 4);
    var nine := eight + EncodeLE(h.symbolCount, 4);
    NextValue(bytes, one, 8, 2);
    NextValue(bytes, two, 10, 2);
    NextValue(bytes, three, 12, 4);
    NextValue(bytes, four, 16, 4);
    NextValue(bytes, five, 20, 8);
    assert bytes[..60] == bytes[..28] + bytes[28..60];
    NextValue(bytes, seven, 60, 4);
    NextValue(bytes, eight, 64, 4);
    NextValue(bytes, nine, 68, 8);
  }

  // ---------------------------------------------------------------- reading

  /** Reads the header: it succeeds exactly on files that begin with one stating their own length, and
      gives that one. */
  method ParseHeader(bytes: seq<byte>) returns (r: Result<Header, FormatError>)
    ensures forall h :: HeaderOf(bytes, h) <==> r == Ok(h)
  {
    hide EncodeLE, DecodeLE, Pow256, HeaderOf, HasFields;
    forall h | HeaderOf(bytes, h) ensures |bytes| >= HEADER_LEN && HasFields(bytes, h) && h.revision > 0 {
      HeaderHasFields(bytes, h);
      HeaderIsLong(bytes, h);
    }
    if |bytes| < HEADER_LEN {
      return Err(Truncated);
    }
    r := ReadFields(bytes);
    if r.Ok? {
      FieldsMakeHeader(bytes, r.value);
    }
  }

  lemma HeaderIsLong(bytes: seq<byte>, h: Header)
    requires HeaderOf(bytes, h)
    ensures |bytes| >= HEADER_LEN && h.revision > 0
  {
  }

  lemma VersionFromIsInverse(magic: seq<byte>, raw: nat)
    ensures forall version: FormatVersion :: magic == version.Magic() && raw == version.Raw() <==> VersionFrom(magic, raw) == Ok(version)
  {
    assert V2.Magic()[7] != V3.Magic()[7];
  }

  lemma ProfileFromIsInverse(bits: nat)
    ensures forall profile: IndexProfile :: bits == profile.FlagBits() <==> ProfileFrom(bits) == Ok(profile)
  {
  }

  /** A file has one header. */
  lemma HeaderIsUnique(bytes: seq<byte>, left: Header, right: Header)
    requires HeaderOf(bytes, left) && HeaderOf(bytes, right)
    ensures left == right
  {
    hide EncodeLE, DecodeLE, Pow256, FieldAt, HeaderOf, VersionFrom, ProfileFrom;
    HeaderHasFields(bytes, left);
    HeaderHasFields(bytes, right);
    HeaderIsLong(bytes, left);
    VersionFromIsInverse(bytes[..8], FieldAt(bytes, 8, 2));
    ProfileFromIsInverse(FieldAt(bytes, 10, 2));
  }

  method ReadFields(bytes: seq<byte>) returns (r: Result<Header, FormatError>)
    requires |bytes| >= HEADER_LEN
    ensures forall h :: HasFields(bytes, h) && h.revision > 0 <==> r == Ok(h)
  {
    hide EncodeLE, DecodeLE, Pow256, FieldAt, VersionFrom, ProfileFrom;
    var cursor := new BinaryCursor(bytes[..HEADER_LEN]);
    assert bytes[..HEADER_LEN][..8] == bytes[..8] && bytes[..HEADER_LEN][28..60] == bytes[28..60];
    var magic := cursor.ReadBytes(8);
    var raw := ReadField(cursor, bytes, 8, 2);
    VersionFromIsInverse(bytes[..8], FieldAt(bytes, 8, 2));
    ProfileFromIsInverse(FieldAt(bytes, 10, 2));
    var version :- VersionFrom(magic.value, raw);
    var bits := ReadField(cursor, bytes, 10, 2);
    var profile :- ProfileFrom(bits);
    var headerLen := ReadField(cursor, bytes, 12, 4);
    if headerLen != HEADER_LEN {
      return Err(HeaderInvalid);
    }
    var sectionCount := ReadField(cursor, bytes, 16, 4);
    if sectionCount != REQUIRED_SECTION_COUNT {
      return Err(HeaderInvalid);
    }
    var fileLen := ReadField(cursor, bytes, 20, 8);
    if fileLen != |bytes| {
      return Err(HeaderInvalid);
    }
    var schemaHash := cursor.ReadBytes(DIGEST_LEN);
    var relationshipCount := ReadField(cursor, bytes, 60, 4);
    var symbolCount := ReadField(cursor, bytes, 64, 4);
    var revision := ReadField(cursor, bytes, 68, 8);
    if revision == 0 {
      return Err(HeaderInvalid);
    }
    r := Ok(Header(version, profile, schemaHash.value, relationshipCount, symbolCount, revision));
  }

  method ReadField(cursor: BinaryCursor, bytes: seq<byte>, at: nat, width: nat) returns (value: nat)
    requires cursor.Valid() && |bytes| >= HEADER_LEN && cursor.bytes == bytes[..HEADER_LEN] && cursor.offset == at && at + width <= HEADER_LEN
    modifies cursor
    ensures cursor.Valid() && cursor.offset == at + width && value == FieldAt(bytes, at, width)
  {
    hide EncodeLE, DecodeLE, Pow256;
    var read := cursor.ReadValue(width);
    value := read.value;
    LittleEndianRoundTrip(value, width);
    assert cursor.bytes[at..at + width] == bytes[at..at + width];
  }
}
