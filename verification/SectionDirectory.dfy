/** The envelope of a snapshot file: a header, a directory of sections, and the sections. */
module SectionDirectory {
  import opened Vocabulary
  import opened SnapshotBytes
  import opened SnapshotHeader

  const DIRECTORY_ENTRY_LEN := 28
  const DIRECTORY_END := HEADER_LEN + REQUIRED_SECTION_COUNT * DIRECTORY_ENTRY_LEN

  datatype SectionPayload = SectionPayload(kind: nat, flags: nat, bytes: seq<byte>, rowCount: nat)

  datatype DirectoryEntry = DirectoryEntry(kind: nat, flags: nat, offset: nat, len: nat, rowCount: nat)

  datatype Section = Section(bytes: seq<byte>, flags: nat, rowCount: nat)

  // ---------------------------------------------------------------- directory entries as bytes

  function EntryBytes(entry: DirectoryEntry): seq<byte> {
    EncodeLE(entry.kind, 2) + EncodeLE(entry.flags, 2) + EncodeLE(entry.offset, 8) + EncodeLE(entry.len, 8) + EncodeLE(entry.rowCount, 8)
  }

  function EntryFrom(bytes: seq<byte>): DirectoryEntry
    requires |bytes| == DIRECTORY_ENTRY_LEN
  {
    DirectoryEntry(DecodeLE(bytes[..2]), DecodeLE(bytes[2..4]), DecodeLE(bytes[4..12]), DecodeLE(bytes[12..20]), DecodeLE(bytes[20..]))
  }

  ghost predicate EntryFits(entry: DirectoryEntry) {
    && entry.kind < Pow256(2) && entry.flags < Pow256(2)
    && entry.offset < Pow256(8) && entry.len < Pow256(8) && entry.rowCount < Pow256(8)
  }

  lemma EntryReadsBack(entry: DirectoryEntry)
    requires EntryFits(entry)
    ensures |EntryBytes(entry)| == DIRECTORY_ENTRY_LEN && EntryFrom(EntryBytes(entry)) == entry
  {
    hide EncodeLE, DecodeLE, Pow256;
    EncodedLength(entry.kind, 2);
    EncodedLength(entry.flags, 2);
    EncodedLength(entry.offset, 8);
    EncodedLength(entry.len, 8);
    EncodedLength(entry.rowCount, 8);
    var bytes := EntryBytes(entry);
    assert bytes[..2] == EncodeLE(entry.kind, 2) && bytes[2..4] == EncodeLE(entry.flags, 2);
    assert bytes[4..12] == EncodeLE(entry.offset, 8) && bytes[12..20] == EncodeLE(entry.len, 8) && bytes[20..] == EncodeLE(entry.rowCount, 8);
    LittleEndianRoundTrip(entry.kind, 2);
    LittleEndianRoundTrip(entry.flags, 2);
    LittleEndianRoundTrip(entry.offset, 8);
    LittleEndianRoundTrip(entry.len, 8);
    LittleEndianRoundTrip(entry.rowCount, 8);
  }

  function DirectoryBytes(entries: seq<DirectoryEntry>): seq<byte> {
    if entries == [] then [] else EntryBytes(entries[0]) + DirectoryBytes(entries[1..])
  }

  /** The whole entries of a directory. */
  function EntriesFrom(bytes: seq<byte>): seq<DirectoryEntry> {
    if |bytes| < DIRECTORY_ENTRY_LEN then []
    else [EntryFrom(bytes[..DIRECTORY_ENTRY_LEN])] + EntriesFrom(bytes[DIRECTORY_ENTRY_LEN..])
  }

  lemma {:induction false} DirectoryReadsBack(entries: seq<DirectoryEntry>)
    requires forall i :: 0 <= i < |entries| ==> EntryFits(entries[i])
    ensures |DirectoryBytes(entries)| == |entries| * DIRECTORY_ENTRY_LEN && EntriesFrom(DirectoryBytes(entries)) == entries
  {
    hide EntryBytes, EntryFrom, EntryFits;
    if entries != [] {
      EntryReadsBack(entries[0]);
      DirectoryReadsBack(entries[1..]);
      var bytes := DirectoryBytes(entries);
      assert bytes[..DIRECTORY_ENTRY_LEN] == EntryBytes(entries[0]) && bytes[DIRECTORY_ENTRY_LEN..] == DirectoryBytes(entries[1..]);
    }
  }

  // ---------------------------------------------------------------- overlap

  predicate Owns(entry: DirectoryEntry, position: nat) { entry.offset <= position < entry.offset + entry.len }

  /** How many sections a byte of the file belongs to. */
  function Owners(entries: seq<DirectoryEntry>, position: nat): nat {
    if entries == [] then 0 else (if Owns(entries[0], position) then 1 else 0) + Owners(entries[1..], position)
  }

  /** Puts an entry behind those that do not start after it. */
  function Place(sorted: seq<DirectoryEntry>, entry: DirectoryEntry): seq<DirectoryEntry> {
    if sorted == [] then [entry]
    else if entry.offset < sorted[0].offset then [entry] + sorted
    else [sorted[0]] + Place(sorted[1..], entry)
  }

  /** A stable sort by offset. */
  function SortByOffset(entries: seq<DirectoryEntry>): seq<DirectoryEntry> {
    if entries == [] then [] else Place(SortByOffset(entries[..|entries| - 1]), entries[|entries| - 1])
  }

  predicate NonOverlapping(sorted: seq<DirectoryEntry>, previousEnd: nat) {
    sorted == [] || (sorted[0].offset >= previousEnd && NonOverlapping(sorted[1..], sorted[0].offset + sorted[0].len))
  }

  lemma {:induction false} PlaceKeepsOwners(sorted: seq<DirectoryEntry>, entry: DirectoryEntry, position: nat)
    ensures Owners(Place(sorted, entry), position) == Owners(sorted, position) + (if Owns(entry, position) then 1 else 0)
  {
    if sorted == [] {
    } else if entry.offset < sorted[0].offset {
      assert ([entry] + sorted)[1..] == sorted;
    } else {
      PlaceKeepsOwners(sorted[1..], entry, position);
      assert ([sorted[0]] + Place(sorted[1..], entry))[1..] == Place(sorted[1..], entry);
    }
  }

  lemma {:induction false} OwnersAppend(entries: seq<DirectoryEntry>, last: DirectoryEntry, position: nat)
    ensures Owners(entries + [last], position) == Owners(entries, position) + (if Owns(last, position) then 1 else 0)
  {
    if entries == [] {
      assert (entries + [last])[1..] == [];
    } else {
      OwnersAppend(entries[1..], last, position);
      assert (entries + [last])[1..] == entries[1..] + [last];
    }
  }

  lemma {:induction false} SortKeepsOwners(entries: seq<DirectoryEntry>, position: nat)
    ensures Owners(SortByOffset(entries), position) == Owners(entries, position)
  {
    if entries != [] {
      var rest, last := entries[..|entries| - 1], entries[|entries| - 1];
      SortKeepsOwners(rest, position);
      PlaceKeepsOwners(SortByOffset(rest), last, position);
      OwnersAppend(rest, last, position);
      assert entries == rest + [last];
    }
  }

  lemma {:induction false} OwnedOnce(sorted: seq<DirectoryEntry>, previousEnd: nat, position: nat)
    requires NonOverlapping(sorted, previousEnd)
    ensures Owners(sorted, position) <= 1 && (position < previousEnd ==> Owners(sorted, position) == 0)
    decreases |sorted|
  {
    if sorted != [] {
      OwnedOnce(sorted[1..], sorted[0].offset + sorted[0].len, position);
    }
  }

  /** No byte belongs to two sections of an accepted directory. */
  lemma AcceptedSectionsAreDisjoint(entries: seq<DirectoryEntry>, position: nat)
    requires NonOverlapping(SortByOffset(entries), 0)
    ensures Owners(entries, position) <= 1
  {
    SortKeepsOwners(entries, position);
    OwnedOnce(SortByOffset(entries), 0, position);
  }

  // ---------------------------------------------------------------- reading

  predicate FlagsSupported(version: FormatVersion, kind: nat, flags: nat) {
    flags == 0 || (version.V3? && (kind == SYMBOL_TABLE || kind == RELATIONSHIP_ROWS || kind == SYMBOL_LOOKUP))
  }

  predicate EntryAcceptable(version: FormatVersion, entry: DirectoryEntry, directoryEnd: nat, fileLen: nat) {
    && 1 <= entry.kind <= REQUIRED_SECTION_COUNT && FlagsSupported(version, entry.kind, entry.flags)
    && directoryEnd <= entry.offset && entry.offset + entry.len <= fileLen
  }

  ghost predicate HasKind(entries: seq<DirectoryEntry>, kind: nat) {
    exists i :: 0 <= i < |entries| && entries[i].kind == kind
  }

  /** Every required section once, within the file, and none over another. */
  ghost predicate DirectoryAcceptable(version: FormatVersion, entries: seq<DirectoryEntry>, directoryEnd: nat, fileLen: nat) {
    && (forall i :: 0 <= i < |entries| ==> EntryAcceptable(version, entries[i], directoryEnd, fileLen))
    && (forall i, j :: 0 <= i < j < |entries| ==> entries[i].kind != entries[j].kind)
    && (forall kind :: 1 <= kind <= REQUIRED_SECTION_COUNT ==> HasKind(entries, kind))
    && NonOverlapping(SortByOffset(entries), 0)
  }

  function SectionOf(bytes: seq<byte>, entry: DirectoryEntry): Section
    requires entry.offset + entry.len <= |bytes|
  {
    Section(bytes[entry.offset..entry.offset + entry.len], entry.flags, entry.rowCount)
  }

  method ReadEntry(cursor: BinaryCursor) returns (entry: DirectoryEntry)
    requires cursor.Valid() && cursor.offset + DIRECTORY_ENTRY_LEN <= |cursor.bytes|
    modifies cursor
    ensures cursor.Valid() && cursor.offset == old(cursor.offset) + DIRECTORY_ENTRY_LEN
    ensures EntriesFrom(cursor.bytes[old(cursor.offset)..]) == [entry] + EntriesFrom(cursor.bytes[cursor.offset..])
  {
    hide EncodeLE, DecodeLE, Pow256;
    var kind := cursor.ReadValue(2);
    var flags := cursor.ReadValue(2);
    var offset := cursor.ReadValue(8);
    var len := cursor.ReadValue(8);
    var rowCount := cursor.ReadValue(8);
    entry := DirectoryEntry(kind.value, flags.value, offset.value, len.value, rowCount.value);
    NextEntry(cursor.bytes, old(cursor.offset), entry);
  }

  lemma NextEntry(bytes: seq<byte>, at: nat, entry: DirectoryEntry)
    requires at + DIRECTORY_ENTRY_LEN <= |bytes| && EntryFits(entry)
    requires EncodeLE(entry.kind, 2) == bytes[at..at + 2] && EncodeLE(entry.flags, 2) == bytes[at + 2..at + 4]
    requires EncodeLE(entry.offset, 8) == bytes[at + 4..at + 12] && EncodeLE(entry.len, 8) == bytes[at + 12..at + 20]
    requires EncodeLE(entry.rowCount, 8) == bytes[at + 20..at + 28]
    ensures EntriesFrom(bytes[at..]) == [entry] + EntriesFrom(bytes[at + DIRECTORY_ENTRY_LEN..])
  {
    hide EncodeLE, DecodeLE, Pow256;
    EntryReadsBack(entry);
    var slice := bytes[at..at + DIRECTORY_ENTRY_LEN];
    assert slice == EntryBytes(entry);
    assert bytes[at..][..DIRECTORY_ENTRY_LEN] == slice && bytes[at..][DIRECTORY_ENTRY_LEN..] == bytes[at + DIRECTORY_ENTRY_LEN..];
  }

  /** Reads the entries, refusing one that is out of place or repeats a kind. */
  method ReadEntries(version: FormatVersion, bytes: seq<byte>, directory: seq<byte>, directoryEnd: nat)
    returns (r: Result<map<nat, Section>, FormatError>, read: seq<DirectoryEntry>)
    requires |directory| == REQUIRED_SECTION_COUNT * DIRECTORY_ENTRY_LEN
    ensures r.Ok? ==> read == EntriesFrom(directory) && ReadSoFar(version, bytes, read, r.value, directoryEnd)
    ensures r.Err? ==> !DirectoryAcceptable(version, EntriesFrom(directory), directoryEnd, |bytes|)
  {
    hide EntriesFrom, EntryFrom, SortByOffset, NonOverlapping, ReadSoFar, EntryAcceptable;
    ghost var entries := EntriesFrom(directory);
    var cursor := new BinaryCursor(directory);
    read := [];
    var sections: map<nat, Section> := map[];
    NothingRead(version, bytes, directoryEnd);
    for i := 0 to REQUIRED_SECTION_COUNT
      invariant fresh(cursor) && cursor.Valid() && cursor.bytes == directory && cursor.offset == i * DIRECTORY_ENTRY_LEN
      invariant |read| == i && entries == read + EntriesFrom(directory[cursor.offset..])
      invariant ReadSoFar(version, bytes, read, sections, directoryEnd)
    {
      var entry := ReadEntry(cursor);
      assert entries[i] == entry;
      if !EntryAcceptable(version, entry, directoryEnd, |bytes|) {
        return Err(SectionOutOfBounds), read;
      }
      if entry.kind in sections {
        KindRepeats(version, bytes, read, sections, directoryEnd, entries, i);
        return Err(DuplicateKey), read;
      }
      ReadOne(version, bytes, read, sections, directoryEnd, entry);
      sections := sections[entry.kind := SectionAt(version, bytes, entry, directoryEnd)];
      read := read + [entry];
    }
    NoEntryLeft(directory[cursor.offset..]);
    assert read == entries;
    r := Ok(sections);
  }

  lemma NoEntryLeft(bytes: seq<byte>)
    requires bytes == []
    ensures EntriesFrom(bytes) == []
  {
  }

  function SectionAt(version: FormatVersion, bytes: seq<byte>, entry: DirectoryEntry, directoryEnd: nat): Section
    requires EntryAcceptable(version, entry, directoryEnd, |bytes|)
  {
    SectionOf(bytes, entry)
  }

  /** The directory entries a file holds behind its header. */
  ghost function DirectoryOf(bytes: seq<byte>): seq<DirectoryEntry>
    requires |bytes| >= DIRECTORY_END
  {
    EntriesFrom(bytes[HEADER_LEN..DIRECTORY_END])
  }

  /** Reads the directory and takes the sections out of the file. It accepts exactly the directories that name
      every required section once, inside the file and clear of one another. */
  method ReadSections(version: FormatVersion, bytes: seq<byte>) returns (r: Result<map<nat, Section>, FormatError>)
    ensures r.Ok? <==> |bytes| >= DIRECTORY_END && DirectoryAcceptable(version, DirectoryOf(bytes), DIRECTORY_END, |bytes|)
    ensures r.Ok? ==> forall entry :: entry in DirectoryOf(bytes) ==>
      entry.offset + entry.len <= |bytes| && entry.kind in r.value && r.value[entry.kind] == SectionOf(bytes, entry)
  {
    hide EntriesFrom, EntryFrom, SortByOffset, NonOverlapping;
    if |bytes| < DIRECTORY_END {
      return Err(SectionOutOfBounds);
    }
    var sections, read := ReadEntries(version, bytes, bytes[HEADER_LEN..DIRECTORY_END], DIRECTORY_END);
    if sections.Err? {
      return Err(sections.error);
    }
    for kind := 1 to REQUIRED_SECTION_COUNT + 1
      invariant forall k :: 1 <= k < kind ==> HasKind(read, k)
    {
      if kind !in sections.value {
        KindIsMissing(version, bytes, read, sections.value, DIRECTORY_END, kind);
        return Err(IndexIncomplete);
      }
    }
    if !NonOverlapping(SortByOffset(read), 0) {
      return Err(SpansDoNotCover);
    }
    r := Ok(sections.value);
  }

  lemma KindIsMissing(version: FormatVersion, bytes: seq<byte>, read: seq<DirectoryEntry>, sections: map<nat, Section>, directoryEnd: nat, kind: nat)
    requires ReadSoFar(version, bytes, read, sections, directoryEnd) && kind !in sections
    ensures !HasKind(read, kind)
  {
  }

  lemma NothingRead(version: FormatVersion, bytes: seq<byte>, directoryEnd: nat)
    ensures ReadSoFar(version, bytes, [], map[], directoryEnd)
  {
  }

  ghost predicate ReadSoFar(version: FormatVersion, bytes: seq<byte>, read: seq<DirectoryEntry>, sections: map<nat, Section>, directoryEnd: nat) {
    && (forall i :: 0 <= i < |read| ==> EntryAcceptable(version, read[i], directoryEnd, |bytes|))
    && (forall i, j :: 0 <= i < j < |read| ==> read[i].kind != read[j].kind)
    && (forall i :: 0 <= i < |read| ==> read[i].kind in sections && sections[read[i].kind] == SectionOf(bytes, read[i]))
    && (forall kind :: kind in sections ==> HasKind(read, kind))
  }

  lemma ReadOne(version: FormatVersion, bytes: seq<byte>, read: seq<DirectoryEntry>, sections: map<nat, Section>, directoryEnd: nat, entry: DirectoryEntry)
    requires ReadSoFar(version, bytes, read, sections, directoryEnd) && EntryAcceptable(version, entry, directoryEnd, |bytes|) && entry.kind !in sections
    ensures ReadSoFar(version, bytes, read + [entry], sections[entry.kind := SectionOf(bytes, entry)], directoryEnd)
  {
    var more := read + [entry];
    forall kind | kind in sections || kind == entry.kind ensures HasKind(more, kind) {
      if kind == entry.kind {
        assert more[|read|].kind == kind;
      } else {
        var i :| 0 <= i < |read| && read[i].kind == kind;
        assert more[i].kind == kind;
      }
    }
  }

  lemma KindRepeats(version: FormatVersion, bytes: seq<byte>, read: seq<DirectoryEntry>, sections: map<nat, Section>, directoryEnd: nat, entries: seq<DirectoryEntry>, i: nat)
    requires ReadSoFar(version, bytes, read, sections, directoryEnd) && read <= entries && |read| == i < |entries| && entries[i].kind in sections
    ensures !(forall j, k :: 0 <= j < k < |entries| ==> entries[j].kind != entries[k].kind)
  {
    var j :| 0 <= j < |read| && read[j].kind == entries[i].kind;
    assert entries[j].kind == entries[i].kind;
  }

  // ---------------------------------------------------------------- writing

  /** Sections one after another, from an offset on. */
  function Directory(sections: seq<SectionPayload>, offset: nat): seq<DirectoryEntry> {
    if sections == [] then []
    else [DirectoryEntry(sections[0].kind, sections[0].flags, offset, |sections[0].bytes|, sections[0].rowCount)]
         + Directory(sections[1..], offset + |sections[0].bytes|)
  }

  function Payloads(sections: seq<SectionPayload>): seq<byte> {
    if sections == [] then [] else sections[0].bytes + Payloads(sections[1..])
  }

  /** The entry of a section, whose bytes are found where the entry says. */
  lemma {:induction false} DirectoryLocates(sections: seq<SectionPayload>, before: seq<byte>)
    ensures var entries := Directory(sections, |before|);
            && |entries| == |sections|
            && forall i :: 0 <= i < |sections| ==> Located(entries[i], sections[i], before + Payloads(sections)) && entries[i].offset >= |before|
  {
    hide Located;
    if sections != [] {
      var first, rest := sections[0], sections[1..];
      DirectoryLocates(rest, before + first.bytes);
      var whole := before + Payloads(sections);
      assert whole == (before + first.bytes) + Payloads(rest);
      FirstIsLocated(sections, before);
      var entries, tail := Directory(sections, |before|), Directory(rest, |before + first.bytes|);
      forall i | 0 <= i < |sections| ensures Located(entries[i], sections[i], whole) && entries[i].offset >= |before| {
        if i > 0 {
          assert entries[i] == tail[i - 1] && sections[i] == rest[i - 1];
        }
      }
    }
  }

  lemma FirstIsLocated(sections: seq<SectionPayload>, before: seq<byte>)
    requires sections != []
    ensures Located(Directory(sections, |before|)[0], sections[0], before + Payloads(sections))
  {
    var first, rest := sections[0].bytes, Payloads(sections[1..]);
    MiddlePart(before, first, rest);
    assert Payloads(sections) == first + rest;
  }

  lemma MiddlePart(before: seq<byte>, middle: seq<byte>, after: seq<byte>)
    ensures (before + (middle + after))[|before|..|before| + |middle|] == middle
  {
  }

  ghost predicate Located(entry: DirectoryEntry, section: SectionPayload, bytes: seq<byte>) {
    && entry.kind == section.kind && entry.offset + entry.len <= |bytes|
    && SectionOf(bytes, entry) == Section(section.bytes, section.flags, section.rowCount)
  }

  /** Offsets that never fall stay in the order they are in. */
  lemma {:induction false} PlacedLast(sorted: seq<DirectoryEntry>, entry: DirectoryEntry)
    requires forall i :: 0 <= i < |sorted| ==> sorted[i].offset <= entry.offset
    ensures Place(sorted, entry) == sorted + [entry]
  {
    if sorted != [] {
      PlacedLast(sorted[1..], entry);
    }
  }

  ghost predicate OffsetsRise(entries: seq<DirectoryEntry>) {
    forall i, j :: 0 <= i < j < |entries| ==> entries[i].offset <= entries[j].offset
  }

  lemma {:induction false} RisingIsSorted(entries: seq<DirectoryEntry>)
    requires OffsetsRise(entries)
    ensures SortByOffset(entries) == entries
  {
    if entries != [] {
      var rest, last := entries[..|entries| - 1], entries[|entries| - 1];
      RisingIsSorted(rest);
      PlacedLast(rest, last);
      assert entries == rest + [last];
    }
  }

  lemma {:induction false} WrittenDoNotOverlap(sections: seq<SectionPayload>, offset: nat)
    ensures NonOverlapping(Directory(sections, offset), offset) && OffsetsRise(Directory(sections, offset))
    ensures forall i :: 0 <= i < |Directory(sections, offset)| ==> Directory(sections, offset)[i].offset >= offset
    decreases |sections|
  {
    if sections != [] {
      WrittenDoNotOverlap(sections[1..], offset + |sections[0].bytes|);
      assert Directory(sections, offset)[1..] == Directory(sections[1..], offset + |sections[0].bytes|);
    }
  }

  method SectionDirectory(sections: seq<SectionPayload>) returns (directory: seq<DirectoryEntry>)
    ensures directory == Directory(sections, HEADER_LEN + |sections| * DIRECTORY_ENTRY_LEN)
  {
    var start := HEADER_LEN + |sections| * DIRECTORY_ENTRY_LEN;
    var nextOffset: nat := start;
    directory := [];
    for i := 0 to |sections|
      invariant Directory(sections, start) == directory + Directory(sections[i..], nextOffset)
    {
      assert sections[i..][1..] == sections[i + 1..];
      directory := directory + [DirectoryEntry(sections[i].kind, sections[i].flags, nextOffset, |sections[i].bytes|, sections[i].rowCount)];
      nextOffset := nextOffset + |sections[i].bytes|;
    }
  }

  /** A file: its header, the directory, and the sections one after another. */
  function FileBytes(header: seq<byte>, sections: seq<SectionPayload>): seq<byte> {
    header + DirectoryBytes(Directory(sections, HEADER_LEN + |sections| * DIRECTORY_ENTRY_LEN)) + Payloads(sections)
  }

  method EncodeFile(header: seq<byte>, sections: seq<SectionPayload>) returns (bytes: seq<byte>)
    ensures bytes == FileBytes(header, sections)
  {
    hide EntryBytes;
    var directory := SectionDirectory(sections);
    bytes := header;
    for i := 0 to |directory|
      invariant bytes + DirectoryBytes(directory[i..]) == header + DirectoryBytes(directory)
    {
      assert directory[i..][1..] == directory[i + 1..];
      bytes := bytes + EntryBytes(directory[i]);
    }
    ghost var head := header + DirectoryBytes(directory);
    assert bytes == head;
    for i := 0 to |sections|
      invariant bytes + Payloads(sections[i..]) == head + Payloads(sections)
    {
      assert sections[i..][1..] == sections[i + 1..];
      bytes := bytes + sections[i].bytes;
    }
    assert bytes == head + Payloads(sections);
  }

  /** Sections ready to be written: each required kind once, everything within the field widths. */
  ghost predicate Writable(sections: seq<SectionPayload>) {
    && |sections| == REQUIRED_SECTION_COUNT
    && (forall i :: 0 <= i < |sections| ==> sections[i].kind == i + 1 && FlagsSupported(V3, i + 1, sections[i].flags))
    && (forall i :: 0 <= i < |sections| ==> sections[i].flags < Pow256(2) && sections[i].rowCount < Pow256(8))
    && DIRECTORY_END + |Payloads(sections)| < Pow256(8)
  }

  lemma WrittenIsAcceptable(sections: seq<SectionPayload>, before: seq<byte>)
    requires Writable(sections) && |before| == DIRECTORY_END
    ensures var entries := Directory(sections, |before|);
            && DirectoryAcceptable(V3, entries, |before|, |before + Payloads(sections)|)
            && forall i :: 0 <= i < |entries| ==> EntryFits(entries[i])
  {
    hide Pow256, NonOverlapping, Owners;
    var entries := Directory(sections, |before|);
    DirectoryLocates(sections, before);
    WrittenDoNotOverlap(sections, |before|);
    RisingIsSorted(entries);
    StartsLater(entries, |before|, 0);
    SmallKinds();
    forall kind | 1 <= kind <= REQUIRED_SECTION_COUNT ensures HasKind(entries, kind) {
      assert Located(entries[kind - 1], sections[kind - 1], before + Payloads(sections));
      assert entries[kind - 1].kind == kind;
    }
    forall i | 0 <= i < |entries| ensures EntryFits(entries[i]) && EntryAcceptable(V3, entries[i], |before|, |before + Payloads(sections)|) {
      assert Located(entries[i], sections[i], before + Payloads(sections));
    }
    forall i, j | 0 <= i < j < |entries| ensures entries[i].kind != entries[j].kind {
      assert Located(entries[i], sections[i], before + Payloads(sections)) && Located(entries[j], sections[j], before + Payloads(sections));
    }
  }

  lemma StartsLater(entries: seq<DirectoryEntry>, from: nat, earlier: nat)
    requires NonOverlapping(entries, from) && earlier <= from
    ensures NonOverlapping(entries, earlier)
  {
  }

  lemma SmallKinds()
    ensures REQUIRED_SECTION_COUNT < Pow256(2)
  {
    assert Pow256(0) == 1 && Pow256(1) == 0x100;
  }

  /** A section is found under its kind. */
  predicate ComesBack(parsed: map<nat, Section>, section: SectionPayload) {
    section.kind in parsed && parsed[section.kind] == Section(section.bytes, section.flags, section.rowCount)
  }

  lemma FileParts(header: seq<byte>, sections: seq<SectionPayload>, bytes: seq<byte>)
    requires |header| == HEADER_LEN && Writable(sections)
    requires bytes == header + DirectoryBytes(Directory(sections, DIRECTORY_END)) + Payloads(sections)
    ensures var start := DIRECTORY_END;
            var written := Directory(sections, start);
            && |bytes| >= start && EntriesFrom(bytes[HEADER_LEN..start]) == written && |written| == |sections|
            && DirectoryAcceptable(V3, written, start, |bytes|)
            && forall i :: 0 <= i < |sections| ==> Located(written[i], sections[i], bytes)
  {
    hide DirectoryBytes, EntriesFrom, Directory, Payloads, DirectoryAcceptable, Pow256, EntryFits, Located;
    var start := DIRECTORY_END;
    var written := Directory(sections, start);
    WrittenEntriesFit(sections, start);
    DirectoryReadsBack(written);
    var before := header + DirectoryBytes(written);
    assert |before| == start;
    HeadIs(header, DirectoryBytes(written), Payloads(sections));
    assert bytes == before + Payloads(sections) && |bytes| >= start;
    assert bytes[HEADER_LEN..start] == DirectoryBytes(written);
    DirectoryLocates(sections, before);
    WrittenIsAcceptable(sections, before);
    assert Directory(sections, |before|) == written;
  }

  lemma WrittenEntriesFit(sections: seq<SectionPayload>, start: nat)
    requires Writable(sections) && start == DIRECTORY_END
    ensures |Directory(sections, start)| == |sections|
    ensures forall i :: 0 <= i < |sections| ==> EntryFits(Directory(sections, start)[i])
  {
    hide Directory, Payloads, DirectoryAcceptable, Pow256, EntryFits, Located, Writable;
    var filler: seq<byte> := seq(start, _ => 0);
    DirectoryLocates(sections, filler);
    WrittenIsAcceptable(sections, filler);
    assert Directory(sections, |filler|) == Directory(sections, start);
  }

  lemma HeadIs(first: seq<byte>, second: seq<byte>, third: seq<byte>)
    ensures (first + second + third)[|first|..|first| + |second|] == second
  {
  }
}
