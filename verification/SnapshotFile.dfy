/** A whole snapshot file: a store written as bytes, and the store read back from them. */
module SnapshotFile {
  import opened Vocabulary
  import opened Interner
  import opened IdentityIndex
  import opened StoredRows
  import opened RelationshipStore
  import opened SnapshotBytes
  import opened SnapshotHeader
  import opened PostingCodec
  import opened IndexGroups
  import opened SnapshotRows
  import opened SnapshotSymbols
  import opened SnapshotStore
  import opened IndexDirectory
  import opened IndexBytes
  import SectionDirectory
  import SnapshotEnvelope

  const MAX_SCHEMA_BYTES := 4 * 1024 * 1024

  type Sections = map<nat, SectionDirectory.Section>

  // ---------------------------------------------------------------- text and flags

  /** Every character is one byte. */
  ghost predicate OneByteEach(text: string) {
    forall i :: 0 <= i < |text| ==> text[i] as int < 256
  }

  ghost function TextBytes(text: string): seq<byte>
    requires OneByteEach(text)
  {
    seq(|text|, i requires 0 <= i < |text| => text[i] as byte)
  }

  function TextFrom(bytes: seq<byte>): string {
    seq(|bytes|, i requires 0 <= i < |bytes| => bytes[i] as char)
  }

  lemma TextReadsBack(text: string)
    requires OneByteEach(text)
    ensures TextFrom(TextBytes(text)) == text
  {
  }

  method EncodeText(text: string) returns (bytes: seq<byte>)
    requires OneByteEach(text)
    ensures bytes == TextBytes(text)
  {
    bytes := [];
    for i := 0 to |text|
      invariant bytes == TextBytes(text)[..i]
    {
      bytes := bytes + [text[i] as byte];
    }
  }

  /** The lowest two bits give the width of the starts, the next two that of the lengths. */
  function TableFlags(startWidth: KeyWidth, lenWidth: KeyWidth): nat {
    startWidth.FlagBits() + 4 * lenWidth.FlagBits()
  }

  function TableWidths(flags: nat): Result<(KeyWidth, KeyWidth), FormatError> {
    if flags >= 16 then Err(UnsupportedFlags)
    else
      var startWidth :- WidthFromFlagBits(flags % 4);
      var lenWidth :- WidthFromFlagBits(flags / 4);
      Ok((startWidth, lenWidth))
  }

  lemma TableWidthsIsInverse(flags: nat)
    ensures forall startWidth: KeyWidth, lenWidth: KeyWidth ::
      flags == TableFlags(startWidth, lenWidth) <==> TableWidths(flags) == Ok((startWidth, lenWidth))
  {
  }

  lemma WidthFromFlagBitsIsInverse(bits: nat)
    ensures forall width: KeyWidth :: bits == width.FlagBits() <==> WidthFromFlagBits(bits) == Ok(width)
  {
  }

  // ---------------------------------------------------------------- what the sections store

  predicate AllThere(sections: Sections) {
    forall kind :: SCHEMA <= kind <= SYMBOL_LOOKUP ==> kind in sections
  }

  predicate SymbolsIn(symbolCount: nat, sections: Sections, symbols: SymbolSections)
    requires AllThere(sections)
  {
    var table, hashes, lookup := sections[SYMBOL_TABLE], sections[SYMBOL_HASHES], sections[SYMBOL_LOOKUP];
    && symbols.bytes == TextFrom(sections[SYMBOL_BYTES].bytes)
    && table.rowCount == hashes.rowCount == lookup.rowCount == symbols.count == symbolCount
    && table.flags == TableFlags(symbols.startWidth, symbols.lenWidth) && lookup.flags == symbols.lookupWidth.FlagBits()
    && symbols.table == table.bytes && symbols.hashes == hashes.bytes && symbols.lookup == lookup.bytes
  }

  ghost predicate IndexesIn(sections: Sections, indexes: IndexFile)
    requires AllThere(sections)
  {
    var directory, keys, ranges := sections[INDEX_DIRECTORY], sections[INDEX_KEYS], sections[POSTING_RANGES];
    && directory.rowCount == |KINDS| && NamesKindsOnce(indexes.directory) && DirectoryStored(directory.bytes, indexes.directory)
    && (keys.bytes == [] ==> keys.rowCount == 0) && indexes.keys == keys.bytes && indexes.keyRows == keys.rowCount
    && |ranges.bytes| == ranges.rowCount * RANGE_LEN && indexes.ranges == RangesIn(ranges.bytes)
  }

  /** The sections store this file, under this header. */
  ghost predicate StoredIn(h: Header, sections: Sections, file: StoreFile) {
    && AllThere(sections) && SymbolsIn(h.symbolCount, sections, file.symbols) && IndexesIn(sections, file.indexes)
    && sections[RELATIONSHIP_ROWS].rowCount == file.rowCount == h.relationshipCount
    && sections[RELATIONSHIP_ROWS].flags == file.rowWidth.FlagBits() && file.rows == sections[RELATIONSHIP_ROWS].bytes
    && file.postings == sections[POSTING_ROW_IDS].bytes && file.postingCount == sections[POSTING_ROW_IDS].rowCount
  }

  method ReadSymbols(symbolCount: nat, sections: Sections) returns (r: Result<SymbolSections, FormatError>)
    requires AllThere(sections)
    ensures forall symbols :: SymbolsIn(symbolCount, sections, symbols) <==> r == Ok(symbols)
  {
    hide TableWidths, WidthFromFlagBits, TableFlags, TextFrom;
    var table, hashes, lookup := sections[SYMBOL_TABLE], sections[SYMBOL_HASHES], sections[SYMBOL_LOOKUP];
    TableWidthsIsInverse(table.flags);
    WidthFromFlagBitsIsInverse(lookup.flags);
    if table.rowCount != symbolCount || hashes.rowCount != symbolCount || lookup.rowCount != symbolCount {
      return Err(CountMismatch);
    }
    var widths :- TableWidths(table.flags);
    var lookupWidth :- WidthFromFlagBits(lookup.flags);
    r := Ok(SymbolSections(TextFrom(sections[SYMBOL_BYTES].bytes), table.bytes, widths.0, widths.1, hashes.bytes, lookup.bytes,
                           lookupWidth, symbolCount));
  }

  method ReadIndexes(sections: Sections) returns (r: Result<IndexFile, FormatError>)
    requires AllThere(sections)
    ensures forall indexes :: IndexesIn(sections, indexes) <==> r == Ok(indexes)
  {
    hide NamesKindsOnce, DirectoryStored, RangesIn;
    var keys, ranges := sections[INDEX_KEYS], sections[POSTING_RANGES];
    var directory := DecodeDirectory(sections[INDEX_DIRECTORY].bytes, sections[INDEX_DIRECTORY].rowCount);
    if directory.Err? {
      return Err(directory.error);
    }
    if keys.bytes == [] && keys.rowCount != 0 {
      return Err(CountMismatch);
    }
    var decoded := DecodeRanges(ranges.bytes, ranges.rowCount);
    if decoded.Err? {
      return Err(decoded.error);
    }
    r := Ok(IndexFile(directory.value, keys.bytes, keys.rowCount, decoded.value));
  }

  /** Takes the sections for a store's: it succeeds exactly if they store one, and returns that. */
  method ReadStore(h: Header, sections: Sections) returns (r: Result<StoreFile, FormatError>)
    requires AllThere(sections)
    ensures forall file :: StoredIn(h, sections, file) <==> r == Ok(file)
  {
    hide SymbolsIn, IndexesIn, WidthFromFlagBits;
    var rows, postings := sections[RELATIONSHIP_ROWS], sections[POSTING_ROW_IDS];
    WidthFromFlagBitsIsInverse(rows.flags);
    var symbols := ReadSymbols(h.symbolCount, sections);
    if symbols.Err? {
      return Err(symbols.error);
    }
    if rows.rowCount != h.relationshipCount {
      return Err(CountMismatch);
    }
    var width :- WidthFromFlagBits(rows.flags);
    var indexes := ReadIndexes(sections);
    if indexes.Err? {
      return Err(indexes.error);
    }
    r := Ok(StoreFile(symbols.value, rows.bytes, width, rows.rowCount, indexes.value, postings.bytes, postings.rowCount));
  }

  // ---------------------------------------------------------------- what is written

  /** The sections of a store and its schema, in the order of their kinds. */
  ghost function SectionsFor(schema: seq<byte>, file: StoreFile): seq<SectionDirectory.SectionPayload>
    requires OneByteEach(file.symbols.bytes)
  {
    var symbols, indexes := file.symbols, file.indexes;
    [ SectionDirectory.SectionPayload(SCHEMA, 0, schema, 1),
      SectionDirectory.SectionPayload(SYMBOL_BYTES, 0, TextBytes(symbols.bytes), |symbols.bytes|),
      SectionDirectory.SectionPayload(SYMBOL_TABLE, TableFlags(symbols.startWidth, symbols.lenWidth), symbols.table, symbols.count),
      SectionDirectory.SectionPayload(RELATIONSHIP_ROWS, file.rowWidth.FlagBits(), file.rows, file.rowCount),
      SectionDirectory.SectionPayload(INDEX_DIRECTORY, 0, IndexDirectoryBytes(indexes.directory), |KINDS|),
      SectionDirectory.SectionPayload(INDEX_KEYS, 0, indexes.keys, indexes.keyRows),
      SectionDirectory.SectionPayload(POSTING_RANGES, 0, RangesBytes(indexes.ranges), |indexes.ranges|),
      SectionDirectory.SectionPayload(POSTING_ROW_IDS, 0, file.postings, file.postingCount),
      SectionDirectory.SectionPayload(SYMBOL_HASHES, 0, symbols.hashes, symbols.count),
      SectionDirectory.SectionPayload(SYMBOL_LOOKUP, symbols.lookupWidth.FlagBits(), symbols.lookup, symbols.count)]
  }

  /** What the encodings of the index sections ask for. */
  ghost predicate Encodable(indexes: IndexFile) {
    && NamesKindsOnce(indexes.directory) && (indexes.keys == [] ==> indexes.keyRows == 0)
    && (forall i :: 0 <= i < |indexes.directory| ==> IndexEntryFits(indexes.directory[i]))
    && (forall i :: 0 <= i < |indexes.ranges| ==> RangeFits(indexes.ranges[i]))
  }

  /** The header of a store's file. */
  predicate HeaderFor(h: Header, file: StoreFile) {
    h.version.V3? && h.profile.AllIndexes? && h.symbolCount == file.symbols.count && h.relationshipCount == file.rowCount
  }

  /** The bytes were written from these sections. */
  ghost predicate WrittenAs(bytes: seq<byte>, h: Header, schema: seq<byte>, sections: StoreSections, digest: SnapshotEnvelope.Digester) {
    && |sections.indexes| == |KINDS| && Sized(KINDS, sections.indexes) && OneByteEach(sections.symbols.bytes)
    && Encodable(WriteIndexes(sections.indexes)) && HeaderFor(h, StoreFileOf(sections)) && |schema| <= MAX_SCHEMA_BYTES
    && SnapshotEnvelope.Holds(bytes, h, SectionsFor(schema, StoreFileOf(sections)), digest)
  }

  lemma WrittenStoresFile(h: Header, sections: Sections, schema: seq<byte>, file: StoreFile)
    requires OneByteEach(file.symbols.bytes) && Encodable(file.indexes) && HeaderFor(h, file)
    requires forall i :: 0 <= i < |SectionsFor(schema, file)| ==> SectionDirectory.ComesBack(sections, SectionsFor(schema, file)[i])
    ensures AllThere(sections) && schema == sections[SCHEMA].bytes && StoredIn(h, sections, file)
  {
    hide NamesKindsOnce, IndexDirectoryBytes, RangesBytes, RangesIn, TextBytes, TextFrom, TableFlags, IndexEntryFits, RangeFits;
    var written := SectionsFor(schema, file);
    assert SectionDirectory.ComesBack(sections, written[0]) && SectionDirectory.ComesBack(sections, written[1]);
    assert SectionDirectory.ComesBack(sections, written[2]) && SectionDirectory.ComesBack(sections, written[3]);
    assert SectionDirectory.ComesBack(sections, written[4]) && SectionDirectory.ComesBack(sections, written[5]);
    assert SectionDirectory.ComesBack(sections, written[6]) && SectionDirectory.ComesBack(sections, written[7]);
    assert SectionDirectory.ComesBack(sections, written[8]) && SectionDirectory.ComesBack(sections, written[9]);
    TextReadsBack(file.symbols.bytes);
    RangesReadBack(file.indexes.ranges);
  }

  /** Written bytes parse to their header and to sections that store what was written. */
  lemma WrittenIsRead(bytes: seq<byte>, h: Header, schema: seq<byte>, stored: StoreSections, parsed: SnapshotEnvelope.Envelope,
                      digest: SnapshotEnvelope.Digester)
    requires WrittenAs(bytes, h, schema, stored, digest)
    requires SnapshotEnvelope.Acceptable(bytes, parsed.header, SnapshotEnvelope.Checksum, digest)
    requires SnapshotEnvelope.SectionsOf(bytes, parsed.sections)
    ensures h == parsed.header && h.version.V3? && h.profile.AllIndexes?
    ensures AllThere(parsed.sections) && schema == parsed.sections[SCHEMA].bytes && |schema| <= MAX_SCHEMA_BYTES
    ensures |stored.indexes| == |KINDS| && StoredIn(h, parsed.sections, StoreFileOf(stored)) && WrittenFrom(StoreFileOf(stored), stored)
  {
    hide SnapshotEnvelope.Acceptable, SnapshotEnvelope.SectionsOf, SnapshotEnvelope.Holds, SectionsFor, Encodable, StoredIn, Sized, WriteIndexes;
    SnapshotEnvelope.WrittenComesBack(bytes, h, parsed, SectionsFor(schema, StoreFileOf(stored)), SnapshotEnvelope.Checksum, digest);
    WrittenStoresFile(h, parsed.sections, schema, StoreFileOf(stored));
  }

  lemma WrittenIsEnveloped(bytes: seq<byte>, h: Header, schema: seq<byte>, stored: StoreSections, digest: SnapshotEnvelope.Digester)
    requires WrittenAs(bytes, h, schema, stored, digest)
    ensures SnapshotEnvelope.Acceptable(bytes, h, SnapshotEnvelope.Checksum, digest)
  {
    hide SnapshotEnvelope.Acceptable, SectionsFor, Encodable, Sized, WriteIndexes;
  }

  // ---------------------------------------------------------------- reading

  /** The hash of the schema a text compiles to, if it does. */
  type SchemaHasher = seq<byte> -> Option<seq<byte>>

  datatype LoadedSnapshot = LoadedSnapshot(header: Header, schema: seq<byte>, store: IndexedRelationshipStore)

  /** The schema section, whose hash is the one in the header. */
  predicate SchemaIn(h: Header, sections: Sections, schema: seq<byte>, hasher: SchemaHasher) {
    && SCHEMA in sections && schema == sections[SCHEMA].bytes
    && |schema| <= MAX_SCHEMA_BYTES && hasher(schema) == Some(h.schemaHash)
  }

  ghost predicate ReadFrom(bytes: seq<byte>, h: Header, sections: Sections, schema: seq<byte>, file: StoreFile, hasher: SchemaHasher)
    requires |bytes| >= SectionDirectory.DIRECTORY_END
  {
    SnapshotEnvelope.SectionsOf(bytes, sections) && SchemaIn(h, sections, schema, hasher) && StoredIn(h, sections, file)
  }

  /** The bytes are a snapshot of these relationships: an envelope whose sections store rows that stand for them. */
  ghost predicate SnapshotOf(bytes: seq<byte>, h: Header, schema: seq<byte>, contents: seq<Relationship>,
                             hasher: SchemaHasher, digest: SnapshotEnvelope.Digester) {
    && SnapshotEnvelope.Acceptable(bytes, h, SnapshotEnvelope.Checksum, digest) && h.version.V3? && h.profile.AllIndexes?
    && exists sections, file, names, rows :: ReadFrom(bytes, h, sections, schema, file, hasher) && Holds(file, contents, names, rows)
  }

  /** Parsed sections hold every kind, each as the part of the file it is. */
  lemma SameSections(bytes: seq<byte>, h: Header, left: Sections, right: Sections, digest: SnapshotEnvelope.Digester)
    requires SnapshotEnvelope.Acceptable(bytes, h, SnapshotEnvelope.Checksum, digest)
    requires SnapshotEnvelope.SectionsOf(bytes, left) && SnapshotEnvelope.SectionsOf(bytes, right)
    ensures |bytes| >= SectionDirectory.DIRECTORY_END && AllThere(left) && AllThere(right)
    ensures forall kind :: SCHEMA <= kind <= SYMBOL_LOOKUP ==> left[kind] == right[kind]
  {
    hide SectionDirectory.EntriesFrom, SectionDirectory.NonOverlapping, SectionDirectory.SortByOffset, HeaderOf;
    var entries := SectionDirectory.DirectoryOf(bytes);
    forall kind | SCHEMA <= kind <= SYMBOL_LOOKUP ensures kind in left && kind in right && left[kind] == right[kind] {
      assert SectionDirectory.HasKind(entries, kind);
      var i :| 0 <= i < |entries| && entries[i].kind == kind;
      assert entries[i] in entries;
    }
  }

  /** Loads a snapshot in full validation. Whatever bytes it accepts are a snapshot of what it returns; bytes
      written from sections of a store are accepted. */
  method LoadBytes(symbolHash: Hasher, rowHash: Row -> nat, hasher: SchemaHasher, digest: SnapshotEnvelope.Digester, bytes: seq<byte>)
    returns (r: Result<LoadedSnapshot, FormatError>)
    ensures r.Ok? ==> fresh(r.value.store) && r.value.store.Valid()
    ensures r.Ok? ==> SnapshotOf(bytes, r.value.header, r.value.schema, r.value.store.Contents(), hasher, digest)
    ensures forall h, schema, sections, names, rows ::
      WrittenAs(bytes, h, schema, sections, digest) && hasher(schema) == Some(h.schemaHash)
      && StoreAcceptable(symbolHash, sections, names, rows) ==>
        && r.Ok? && r.value.header == h && r.value.schema == schema
        && AllResolve(rows, |names|) && r.value.store.Contents() == AllRelationships(names, rows)
  {
    hide SnapshotEnvelope.Acceptable, SnapshotEnvelope.SectionsOf, StoredIn, WrittenAs, Holds, Fits, StoreAcceptable;
    hide IndexedRelationshipStore.Valid, AllRelationships, SharesOut, StoreFileOf, Sized, WrittenFrom;
    var parsed := SnapshotEnvelope.Parse(bytes, SnapshotEnvelope.Checksum, digest);
    if parsed.Err? {
      forall h, schema, sections | WrittenAs(bytes, h, schema, sections, digest) ensures false {
        WrittenIsEnveloped(bytes, h, schema, sections, digest);
      }
      return Err(parsed.error);
    }
    var h, sections := parsed.value.header, parsed.value.sections;
    SameSections(bytes, h, sections, sections, digest);
    forall h', schema, stored | WrittenAs(bytes, h', schema, stored, digest)
      ensures h' == h && h.version.V3? && h.profile.AllIndexes? && schema == sections[SCHEMA].bytes && |schema| <= MAX_SCHEMA_BYTES
      ensures |stored.indexes| == |KINDS| && StoredIn(h, sections, StoreFileOf(stored)) && WrittenFrom(StoreFileOf(stored), stored)
    {
      WrittenIsRead(bytes, h', schema, stored, parsed.value, digest);
    }
    if h.version != V3 {
      return Err(UnsupportedVersion);
    }
    if h.profile != AllIndexes {
      return Err(UnsupportedProfile);
    }
    var schema := sections[SCHEMA].bytes;
    if |schema| > MAX_SCHEMA_BYTES {
      return Err(SchemaTooLarge);
    }
    if hasher(schema) != Some(h.schemaHash) {
      return Err(SchemaMismatch);
    }
    var file := ReadStore(h, sections);
    if file.Err? {
      return Err(file.error);
    }
    var loaded := LoadFile(symbolHash, rowHash, file.value);
    if loaded.Err? {
      return Err(loaded.error);
    }
    assert ReadFrom(bytes, h, sections, schema, file.value, hasher);
    r := Ok(LoadedSnapshot(h, schema, loaded.value));
  }

  // ---------------------------------------------------------------- bytes determine the snapshot

  lemma StoredFileOnce(h: Header, left: Sections, leftFile: StoreFile, right: Sections, rightFile: StoreFile)
    requires StoredIn(h, left, leftFile) && StoredIn(h, right, rightFile)
    requires forall kind :: SCHEMA <= kind <= SYMBOL_LOOKUP ==> left[kind] == right[kind]
    ensures leftFile == rightFile
  {
    hide DirectoryStored, NamesKindsOnce, RangesIn, TextFrom, TableFlags, TableWidths, WidthFromFlagBits, KeyWidth.FlagBits;
    TableWidthsIsInverse(left[SYMBOL_TABLE].flags);
    WidthFromFlagBitsIsInverse(left[SYMBOL_LOOKUP].flags);
    WidthFromFlagBitsIsInverse(left[RELATIONSHIP_ROWS].flags);
    DirectoryOnce(left[INDEX_DIRECTORY].bytes, leftFile.indexes.directory, rightFile.indexes.directory);
  }

  lemma DirectoryOnce(bytes: seq<byte>, left: seq<DirectoryEntry>, right: seq<DirectoryEntry>)
    requires DirectoryStored(bytes, left) && DirectoryStored(bytes, right) && NamesKindsOnce(left) && NamesKindsOnce(right)
    ensures left == right
  {
    hide DirectoryStored;
    StoredOnce(bytes, left, right);
  }

  lemma HeldOnce(file: StoreFile, left: seq<Relationship>, names: seq<string>, rows: seq<Row>,
                 right: seq<Relationship>, otherNames: seq<string>, otherRows: seq<Row>)
    requires Holds(file, left, names, rows) && Holds(file, right, otherNames, otherRows)
    ensures left == right
  {
    hide Entries, Acceptable, AllResolve, AllRelationships, RowsFit, RowsBytes;
    RowsBytesInjective(rows, otherRows, file.rowWidth.ByteLen());
  }

  /** Bytes are a snapshot of one thing only: they determine header, schema text and relationships. */
  lemma SnapshotIsUnique(bytes: seq<byte>, left: Header, leftSchema: seq<byte>, leftContents: seq<Relationship>,
                         right: Header, rightSchema: seq<byte>, rightContents: seq<Relationship>,
                         hasher: SchemaHasher, digest: SnapshotEnvelope.Digester)
    requires SnapshotOf(bytes, left, leftSchema, leftContents, hasher, digest)
    requires SnapshotOf(bytes, right, rightSchema, rightContents, hasher, digest)
    ensures left == right && leftSchema == rightSchema && leftContents == rightContents
  {
    hide HeaderOf, SnapshotEnvelope.SectionsOf, SectionDirectory.DirectoryAcceptable, StoredIn, Holds, Fits;
    HeaderIsUnique(bytes, left, right);
    var sections, file, names, rows :| ReadFrom(bytes, left, sections, leftSchema, file, hasher) && Holds(file, leftContents, names, rows);
    var otherSections, otherFile, otherNames, otherRows :|
      ReadFrom(bytes, right, otherSections, rightSchema, otherFile, hasher) && Holds(otherFile, rightContents, otherNames, otherRows);
    SameSections(bytes, left, sections, otherSections, digest);
    StoredFileOnce(left, sections, file, otherSections, otherFile);
    HeldOnce(file, leftContents, names, rows, rightContents, otherNames, otherRows);
  }

  // ---------------------------------------------------------------- everything written has its room

  const PAYLOAD_LIMIT := 0x100_0000_0000

  lemma ProductBound(left: nat, leftMax: nat, right: nat, rightMax: nat)
    requires left <= leftMax && right <= rightMax
    ensures left * right <= leftMax * rightMax
  {
    assert left * right <= leftMax * right <= leftMax * rightMax;
  }

  lemma {:induction false} PayloadsBound(sections: seq<SectionDirectory.SectionPayload>)
    requires forall i :: 0 <= i < |sections| ==> |sections[i].bytes| <= PAYLOAD_LIMIT
    ensures |SectionDirectory.Payloads(sections)| <= |sections| * PAYLOAD_LIMIT
  {
    if sections != [] {
      PayloadsBound(sections[1..]);
    }
  }

  lemma {:induction false} SpansEnd(ranges: seq<DiskRange>, limit: nat)
    requires forall i :: 0 <= i < |ranges| ==> ranges[i].overflowStart + ranges[i].overflowLen <= limit
    ensures forall span :: span in SpansOf(ranges) ==> span.end <= limit
  {
    if ranges != [] {
      SpansEnd(ranges[1..], limit);
    }
  }

  lemma {:induction false} ContiguousWithin(spans: seq<SpanCover.Span>, from: nat, total: nat, limit: nat)
    requires SpanCover.Contiguous(spans, from, total) && from <= limit && forall span :: span in spans ==> span.end <= limit
    ensures total <= limit
    decreases |spans|
  {
    if spans != [] {
      assert spans[0] in spans;
      ContiguousWithin(spans[1..], spans[0].end, total, limit);
    }
  }

  /** If every list of deltas begins and is as long as 32 bits can say, the section is not much longer. */
  lemma PostingsBound(ranges: seq<DiskRange>, total: nat, rowCount: nat)
    requires RangesTile(ranges, total, rowCount)
    requires forall range: DiskRange :: range in ranges ==> range.overflowStart < U32_LIMIT && range.overflowLen < U32_LIMIT
    ensures total <= 2 * U32_LIMIT
  {
    forall i | 0 <= i < |ranges| ensures ranges[i].overflowStart + ranges[i].overflowLen <= 2 * U32_LIMIT {
      assert ranges[i] in ranges;
    }
    SpansEnd(ranges, 2 * U32_LIMIT);
    ContiguousWithin(SpansOf(ranges), 0, total, 2 * U32_LIMIT);
  }

  lemma {:induction false} AllKeysAppend(indexes: seq<IndexSection>, last: IndexSection)
    ensures AllKeys(indexes + [last]) == AllKeys(indexes) + last.keyBytes
    ensures CountKeys(indexes + [last]) == CountKeys(indexes) + last.keyCount
  {
    if indexes == [] {
      assert indexes + [last] == [last];
      assert AllKeys([last]) == last.keyBytes + AllKeys([]) && CountKeys([last]) == last.keyCount + CountKeys([]);
    } else {
      assert (indexes + [last])[1..] == indexes[1..] + [last];
      AllKeysAppend(indexes[1..], last);
    }
  }

  lemma GroupSizeBound(kind: IndexKind, width: KeyWidth, keyCount: nat, longer: nat)
    requires longer <= keyCount
    ensures keyCount <= GroupSize(kind, width.ByteLen(), keyCount, longer) <= 16 * keyCount
  {
    var one, other := EntryLength(kind, width.ByteLen(), true), EntryLength(kind, width.ByteLen(), false);
    assert 1 <= other <= one <= 16 by {
      ProductBound(kind.FieldCount(), 3, width.ByteLen(), 4);
      ProductBound(1, kind.FieldCount(), 1, width.ByteLen());
    }
    ProductBound(keyCount - longer, keyCount - longer, one, 16);
    ProductBound(longer, longer, other, 16);
    ProductBound(keyCount - longer, keyCount - longer, 1, one);
    ProductBound(longer, longer, 1, other);
  }

  lemma KeysBound(indexes: seq<IndexSection>, postingCount: nat)
    requires |indexes| == |KINDS| && Sized(KINDS, indexes) && IndexesFitU32(indexes, postingCount)
    ensures |AllKeys(indexes)| <= 17 * U32_LIMIT && (AllKeys(indexes) == [] ==> CountKeys(indexes) == 0)
  {
    hide GroupSize;
    var last := |KINDS| - 1;
    assert indexes == indexes[..last] + [indexes[last]];
    AllKeysAppend(indexes[..last], indexes[last]);
    assert |AllKeys(indexes[..last])| < U32_LIMIT;
    assert SectionSized(KINDS[last], indexes[last]);
    GroupSizeBound(KINDS[last], indexes[last].width, indexes[last].keyCount, |indexes[last].ranges|);
    CountsBound(KINDS, indexes);
  }

  lemma {:induction false} CountsBound(kinds: seq<IndexKind>, indexes: seq<IndexSection>)
    requires |kinds| == |indexes| && Sized(kinds, indexes)
    ensures CountKeys(indexes) <= |AllKeys(indexes)|
    decreases |indexes|
  {
    hide GroupSize;
    if indexes != [] {
      GroupSizeBound(kinds[0], indexes[0].width, indexes[0].keyCount, |indexes[0].ranges|);
      CountsBound(kinds[1..], indexes[1..]);
    }
  }

  /** Where the entries of written indexes say that their parts begin, and how long these are. */
  lemma {:induction false} WrittenStarts(kinds: seq<IndexKind>, indexes: seq<IndexSection>, keyStart: nat, rangeStart: nat, k: nat)
    requires |kinds| == |indexes| && k < |indexes|
    ensures |DirectoryOf(kinds, indexes, keyStart, rangeStart)| == |indexes|
    ensures var entry := DirectoryOf(kinds, indexes, keyStart, rangeStart)[k];
            && entry.keyStart == keyStart + |AllKeys(indexes[..k])| && entry.keyCount <= CountKeys(indexes)
            && entry.rangeStart + entry.rangeCount <= rangeStart + |AllRanges(indexes)|
    decreases |indexes|
  {
    var keyEnd, rangeEnd := keyStart + |indexes[0].keyBytes|, rangeStart + |indexes[0].ranges|;
    DirectoryLength(kinds[1..], indexes[1..], keyEnd, rangeEnd);
    if k > 0 {
      WrittenStarts(kinds[1..], indexes[1..], keyEnd, rangeEnd, k - 1);
      assert indexes[..k][1..] == indexes[1..][..k - 1];
    }
  }

  /** Indexes that fit 32 bits can be encoded. */
  lemma FittingIsEncodable(indexes: seq<IndexSection>, postingCount: nat, postings: nat, rowCount: nat)
    requires |indexes| == |KINDS| && Sized(KINDS, indexes) && IndexesFitU32(indexes, postingCount)
    requires RangesTile(AllRanges(indexes), postings, rowCount) && rowCount < U32_LIMIT
    ensures Encodable(WriteIndexes(indexes))
  {
    hide DirectoryOf, AllKeys, CountKeys, AllRanges, Sized, NamesKindsOnce, SpanCover.Contiguous;
    WrittenKindsOnce(indexes);
    KeysBound(indexes, postingCount);
    DirectoryLength(KINDS, indexes, 0, 0);
    forall i | 0 <= i < |KINDS| ensures IndexEntryFits(WriteIndexes(indexes).directory[i]) {
      WrittenStarts(KINDS, indexes, 0, 0, i);
    }
    forall i | 0 <= i < |AllRanges(indexes)| ensures RangeFits(AllRanges(indexes)[i]) {
      assert AllRanges(indexes)[i] in AllRanges(indexes);
    }
  }

  lemma SymbolsBound(hash: Hasher, symbols: SymbolSections)
    requires SymbolsAcceptable(hash, symbols) && symbols.count < U32_LIMIT
    ensures |symbols.table| <= PAYLOAD_LIMIT && |symbols.hashes| <= PAYLOAD_LIMIT && |symbols.lookup| <= PAYLOAD_LIMIT
  {
    ProductBound(symbols.count, U32_LIMIT, symbols.startWidth.ByteLen() + symbols.lenWidth.ByteLen(), 8);
    ProductBound(symbols.count, U32_LIMIT, symbols.lookupWidth.ByteLen(), 4);
  }

  lemma RowsBound(rows: seq<Row>, width: KeyWidth)
    requires |rows| < U32_LIMIT
    ensures |RowsBytes(rows, width.ByteLen())| <= PAYLOAD_LIMIT
  {
    RowsBytesLength(rows, width.ByteLen());
    ProductBound(|rows|, U32_LIMIT, 6 * width.ByteLen(), 24);
  }

  /** Sections that fit 32 bits make a file of 64-bit length. */
  lemma FittingIsReady(hash: Hasher, schema: seq<byte>, sections: StoreSections, names: seq<string>, rows: seq<Row>)
    requires |schema| <= MAX_SCHEMA_BYTES && StoreAcceptable(hash, sections, names, rows) && FitsU32(sections)
    requires |sections.indexes| == |KINDS| && Sized(KINDS, sections.indexes) && OneByteEach(sections.symbols.bytes)
    ensures Encodable(WriteIndexes(sections.indexes))
    ensures SnapshotEnvelope.Ready(SectionsFor(schema, StoreFileOf(sections)))
  {
    hide SymbolsAcceptable, Acceptable, AllStored, PostingTotal, RangesTile, AllKeys, CountKeys, AllRanges, Sized, RowsBytes, RowsFit;
    hide DirectoryOf, IndexDirectoryBytes, RangesBytes, Encodable, RangeFits, SectionDirectory.Payloads;
    var file := StoreFileOf(sections);
    FittingIsEncodable(sections.indexes, sections.postingCount, |sections.postings|, |rows|);
    SymbolsBound(hash, sections.symbols);
    RowsBound(rows, sections.rowWidth);
    KeysBound(sections.indexes, sections.postingCount);
    PostingsBound(file.indexes.ranges, |file.postings|, |rows|);
    EncodedBound(file.indexes);
    PayloadsBound(SectionsFor(schema, file));
  }

  lemma EncodedBound(indexes: IndexFile)
    requires Encodable(indexes) && |indexes.ranges| < U32_LIMIT
    ensures |IndexDirectoryBytes(indexes.directory)| <= PAYLOAD_LIMIT && |RangesBytes(indexes.ranges)| <= PAYLOAD_LIMIT
  {
    IndexDirectoryLength(indexes.directory);
    RangesReadBack(indexes.ranges);
  }

  // ---------------------------------------------------------------- writing

  /** The header a store's file is given. */
  function SavedHeader(sections: StoreSections, schemaHash: seq<byte>, revision: nat): Header {
    Header(V3, AllIndexes, schemaHash, sections.rowCount, sections.symbols.count, revision)
  }

  method ListSections(schema: seq<byte>, file: StoreFile) returns (payloads: seq<SectionDirectory.SectionPayload>)
    requires OneByteEach(file.symbols.bytes)
    ensures payloads == SectionsFor(schema, file)
  {
    hide TextBytes, IndexDirectoryBytes, RangesBytes;
    var text := EncodeText(file.symbols.bytes);
    var directory := EncodeDirectory(file.indexes.directory);
    var ranges := EncodeRanges(file.indexes.ranges);
    var symbols, indexes := file.symbols, file.indexes;
    payloads := [
      SectionDirectory.SectionPayload(SCHEMA, 0, schema, 1),
      SectionDirectory.SectionPayload(SYMBOL_BYTES, 0, text, |symbols.bytes|),
      SectionDirectory.SectionPayload(SYMBOL_TABLE, TableFlags(symbols.startWidth, symbols.lenWidth), symbols.table, symbols.count),
      SectionDirectory.SectionPayload(RELATIONSHIP_ROWS, file.rowWidth.FlagBits(), file.rows, file.rowCount),
      SectionDirectory.SectionPayload(INDEX_DIRECTORY, 0, directory, |KINDS|),
      SectionDirectory.SectionPayload(INDEX_KEYS, 0, indexes.keys, indexes.keyRows),
      SectionDirectory.SectionPayload(POSTING_RANGES, 0, ranges, |indexes.ranges|),
      SectionDirectory.SectionPayload(POSTING_ROW_IDS, 0, file.postings, file.postingCount),
      SectionDirectory.SectionPayload(SYMBOL_HASHES, 0, symbols.hashes, symbols.count),
      SectionDirectory.SectionPayload(SYMBOL_LOOKUP, symbols.lookupWidth.FlagBits(), symbols.lookup, symbols.count)];
  }

  /** Writes a snapshot, unless the schema text is too long or something does not fit 32 bits. */
  method SaveBytes(store: IndexedRelationshipStore, schema: seq<byte>, schemaHash: seq<byte>, revision: nat, digest: SnapshotEnvelope.Digester)
    returns (r: Result<seq<byte>, FormatError>, ghost sections: StoreSections, ghost rows: seq<Row>)
    requires |schemaHash| == DIGEST_LEN && 0 < revision < U64_LIMIT && SnapshotEnvelope.Digests(digest)
    requires Savable(store) && OneByteEach(store.interner.bytes)
    ensures r.Ok? <==> |schema| <= MAX_SCHEMA_BYTES && Storable(store)
    ensures r.Ok? ==> SavedAs(store, sections, rows)
    ensures r.Ok? ==> WrittenAs(r.value, SavedHeader(sections, schemaHash, revision), schema, sections, digest)
  {
    hide Storable, StoreAcceptable, LiveRelationships, AllRelationships, Sized, WriteIndexes, SectionsFor, Encodable, IndexesFitU32;
    hide SnapshotEnvelope.Holds, SnapshotEnvelope.Ready, SnapshotEnvelope.FileLen;
    sections := StoreSections(SymbolSections([], [], U8, U8, [], [], U8, 0), [], U8, 0, [], [], 0);
    if |schema| > MAX_SCHEMA_BYTES {
      return Err(SchemaTooLarge), sections, [];
    }
    var saved, savedRows := SaveStore(store);
    if saved.Err? {
      return Err(saved.error), sections, [];
    }
    sections, rows := saved.value, savedRows;
    SavedIsReady(store, schema, sections, rows);
    var payloads := ListSections(schema, StoreFileOf(saved.value));
    var header := SavedHeader(saved.value, schemaHash, revision);
    ReadyHeaderFits(header, payloads);
    var bytes := SnapshotEnvelope.Write(header, payloads, digest);
    r := Ok(bytes);
  }

  lemma SavedIsReady(store: IndexedRelationshipStore, schema: seq<byte>, sections: StoreSections, rows: seq<Row>)
    requires store.Valid() && SavedAs(store, sections, rows) && |schema| <= MAX_SCHEMA_BYTES && OneByteEach(store.interner.bytes)
    ensures OneByteEach(sections.symbols.bytes) && |sections.indexes| == |KINDS| && Encodable(WriteIndexes(sections.indexes))
    ensures SnapshotEnvelope.Ready(SectionsFor(schema, StoreFileOf(sections)))
    ensures sections.rowCount < U32_LIMIT && sections.symbols.count < U32_LIMIT && Sized(KINDS, sections.indexes)
  {
    hide StoreAcceptable, AllRelationships, Sized, WriteIndexes, SectionsFor, Encodable, IndexesFitU32;
    FittingIsReady(store.symbolHash, schema, sections, NamesOf(store.interner.bytes, store.interner.entries), rows);
  }

  lemma ReadyHeaderFits(h: Header, payloads: seq<SectionDirectory.SectionPayload>)
    requires SnapshotEnvelope.Ready(payloads) && |h.schemaHash| == DIGEST_LEN && 0 < h.revision < U64_LIMIT
    requires h.relationshipCount < U32_LIMIT && h.symbolCount < U32_LIMIT
    ensures HeaderFits(h, SnapshotEnvelope.FileLen(payloads))
  {
  }

  /** Saving a store to bytes and loading these gives back the same relationships in the same order, the schema
      text and the revision. */
  method SaveBytesThenLoad(store: IndexedRelationshipStore, schema: seq<byte>, schemaHash: seq<byte>, revision: nat, hasher: SchemaHasher,
                           digest: SnapshotEnvelope.Digester)
    returns (r: Result<LoadedSnapshot, FormatError>)
    requires Savable(store)
    requires OneByteEach(store.interner.bytes) && |schemaHash| == DIGEST_LEN && 0 < revision < U64_LIMIT && SnapshotEnvelope.Digests(digest)
    requires hasher(schema) == Some(schemaHash)
    ensures r.Ok? <==> |schema| <= MAX_SCHEMA_BYTES && Storable(store)
    ensures r.Ok? ==> r.value.store.Valid() && r.value.store.Contents() == store.Contents()
    ensures r.Ok? ==> r.value.schema == schema && r.value.header.schemaHash == schemaHash && r.value.header.revision == revision
  {
    hide Storable, StoreAcceptable, IndexedRelationshipStore.Valid, LiveRelationships, AllRelationships, WrittenAs, SnapshotOf;
    var bytes, sections, rows := SaveBytes(store, schema, schemaHash, revision, digest);
    if bytes.Err? {
      return Err(bytes.error);
    }
    r := LoadBytes(store.symbolHash, store.rowHash, hasher, digest, bytes.value);
  }
}
