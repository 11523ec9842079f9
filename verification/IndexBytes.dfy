/** The index directory and the posting ranges as bytes. */
module IndexBytes {
  import opened Vocabulary
  import opened SnapshotBytes
  import opened SnapshotHeader
  import opened PostingCodec
  import opened IndexGroups
  import opened SnapshotStore
  import opened IndexDirectory

  const RANGE_LEN := 12
  const INDEX_ENTRY_LEN := 20

  // ---------------------------------------------------------------- posting ranges

  function RangeBytes(range: DiskRange): seq<byte> {
    EncodeLE(range.firstRowId, 4) + EncodeLE(range.overflowStart, 4) + EncodeLE(range.overflowLen, 4)
  }

  function RangeFrom(bytes: seq<byte>): DiskRange
    requires |bytes| == RANGE_LEN
  {
    DiskRange(DecodeLE(bytes[..4]), DecodeLE(bytes[4..8]), DecodeLE(bytes[8..]))
  }

  predicate RangeFits(range: DiskRange) {
    range.firstRowId < U32_LIMIT && range.overflowStart < U32_LIMIT && range.overflowLen < U32_LIMIT
  }

  function RangesBytes(ranges: seq<DiskRange>): seq<byte> {
    if ranges == [] then [] else RangeBytes(ranges[0]) + RangesBytes(ranges[1..])
  }

  function RangesIn(bytes: seq<byte>): seq<DiskRange> {
    if |bytes| < RANGE_LEN then [] else [RangeFrom(bytes[..RANGE_LEN])] + RangesIn(bytes[RANGE_LEN..])
  }

  lemma RangeReadsBack(range: DiskRange)
    requires RangeFits(range)
    ensures |RangeBytes(range)| == RANGE_LEN && RangeFrom(RangeBytes(range)) == range
  {
    hide EncodeLE, DecodeLE, Pow256;
    Powers();
    EncodedLength(range.firstRowId, 4);
    EncodedLength(range.overflowStart, 4);
    EncodedLength(range.overflowLen, 4);
    var bytes := RangeBytes(range);
    assert bytes[..4] == EncodeLE(range.firstRowId, 4) && bytes[4..8] == EncodeLE(range.overflowStart, 4) && bytes[8..] == EncodeLE(range.overflowLen, 4);
    LittleEndianRoundTrip(range.firstRowId, 4);
    LittleEndianRoundTrip(range.overflowStart, 4);
    LittleEndianRoundTrip(range.overflowLen, 4);
  }

  /** Ranges that fit 32 bits are read back from twelve bytes each. */
  lemma {:induction false} RangesReadBack(ranges: seq<DiskRange>)
    requires forall i :: 0 <= i < |ranges| ==> RangeFits(ranges[i])
    ensures |RangesBytes(ranges)| == |ranges| * RANGE_LEN && RangesIn(RangesBytes(ranges)) == ranges
  {
    hide RangeBytes, RangeFrom, RangeFits;
    if ranges != [] {
      RangeReadsBack(ranges[0]);
      RangesReadBack(ranges[1..]);
      var bytes := RangesBytes(ranges);
      assert bytes[..RANGE_LEN] == RangeBytes(ranges[0]) && bytes[RANGE_LEN..] == RangesBytes(ranges[1..]);
    }
  }

  method EncodeRanges(ranges: seq<DiskRange>) returns (bytes: seq<byte>)
    ensures bytes == RangesBytes(ranges)
  {
    hide RangeBytes;
    bytes := [];
    for i := 0 to |ranges|
      invariant bytes + RangesBytes(ranges[i..]) == RangesBytes(ranges)
    {
      assert ranges[i..][1..] == ranges[i + 1..];
      bytes := bytes + RangeBytes(ranges[i]);
    }
  }

  /** Reads the posting ranges: it fails exactly if the section is not twelve bytes for each. */
  method DecodeRanges(bytes: seq<byte>, count: nat) returns (r: Result<seq<DiskRange>, FormatError>)
    ensures r.Ok? <==> |bytes| == count * RANGE_LEN
    ensures r.Ok? ==> r.value == RangesIn(bytes)
  {
    hide EncodeLE, DecodeLE, Pow256, RangeFrom;
    if |bytes| != count * RANGE_LEN {
      return Err(CountMismatch);
    }
    var cursor := new BinaryCursor(bytes);
    var ranges: seq<DiskRange> := [];
    for i := 0 to count
      invariant fresh(cursor) && cursor.Valid() && cursor.bytes == bytes && cursor.offset == i * RANGE_LEN
      invariant RangesIn(bytes) == ranges + RangesIn(bytes[cursor.offset..])
    {
      ghost var at := cursor.offset;
      var firstRowId := cursor.ReadValue(4);
      var overflowStart := cursor.ReadValue(4);
      var overflowLen := cursor.ReadValue(4);
      var range := DiskRange(firstRowId.value, overflowStart.value, overflowLen.value);
      RangeAt(bytes, at, range);
      ranges := ranges + [range];
    }
    r := Ok(ranges);
  }

  lemma RangeAt(bytes: seq<byte>, at: nat, range: DiskRange)
    requires at + RANGE_LEN <= |bytes| && range.firstRowId < Pow256(4) && range.overflowStart < Pow256(4) && range.overflowLen < Pow256(4)
    requires EncodeLE(range.firstRowId, 4) == bytes[at..at + 4] && EncodeLE(range.overflowStart, 4) == bytes[at + 4..at + 8]
    requires EncodeLE(range.overflowLen, 4) == bytes[at + 8..at + 12]
    ensures RangesIn(bytes[at..]) == [range] + RangesIn(bytes[at + RANGE_LEN..])
  {
    hide EncodeLE, DecodeLE, Pow256;
    Powers();
    RangeReadsBack(range);
    assert bytes[at..][..RANGE_LEN] == RangeBytes(range) && bytes[at..][RANGE_LEN..] == bytes[at + RANGE_LEN..];
  }

  // ---------------------------------------------------------------- directory entries

  function RawKind(kind: IndexKind): nat {
    match kind
    case Resource => 1
    case ResourceObject => 2
    case ResourceTypeRelation => 3
    case ResourceType => 4
    case Subject => 5
    case SubjectTypeRelation => 6
    case SubjectType => 7
  }

  function KindFrom(raw: nat): Result<IndexKind, FormatError> {
    match raw
    case 1 => Ok(Resource)
    case 2 => Ok(ResourceObject)
    case 3 => Ok(ResourceTypeRelation)
    case 4 => Ok(ResourceType)
    case 5 => Ok(Subject)
    case 6 => Ok(SubjectTypeRelation)
    case 7 => Ok(SubjectType)
    case _ => Err(UnsupportedFlags)
  }

  /** The lowest bit says compact, the next two give the width. */
  function CompactFlags(width: KeyWidth): nat { 1 + 2 * width.FlagBits() }

  /** Flags without the compact bit are those of the fixed-width format. */
  function WidthFromFlags(flags: nat): Result<KeyWidth, FormatError> {
    if flags % 2 == 0 || flags >= 8 then Err(UnsupportedFlags) else WidthFromFlagBits(flags / 2)
  }

  lemma KindFromIsInverse(raw: nat)
    ensures forall kind: IndexKind :: raw == RawKind(kind) <==> KindFrom(raw) == Ok(kind)
  {
  }

  lemma WidthFromFlagsIsInverse(flags: nat)
    ensures forall width: KeyWidth :: flags == CompactFlags(width) <==> WidthFromFlags(flags) == Ok(width)
  {
  }

  function IndexEntryBytes(entry: DirectoryEntry): seq<byte> {
    EncodeLE(RawKind(entry.kind), 2) + EncodeLE(CompactFlags(entry.width), 2) + EncodeLE(entry.keyStart, 4)
    + EncodeLE(entry.keyCount, 4) + EncodeLE(entry.rangeStart, 4) + EncodeLE(entry.rangeCount, 4)
  }

  predicate IndexEntryFits(entry: DirectoryEntry) {
    entry.keyStart < U32_LIMIT && entry.keyCount < U32_LIMIT && entry.rangeStart < U32_LIMIT && entry.rangeCount < U32_LIMIT
  }

  function IndexDirectoryBytes(directory: seq<DirectoryEntry>): seq<byte> {
    if directory == [] then [] else IndexEntryBytes(directory[0]) + IndexDirectoryBytes(directory[1..])
  }

  /** The bytes store this directory. */
  ghost predicate DirectoryStored(bytes: seq<byte>, directory: seq<DirectoryEntry>) {
    (forall i :: 0 <= i < |directory| ==> IndexEntryFits(directory[i])) && IndexDirectoryBytes(directory) == bytes
  }

  lemma IndexEntryLength(entry: DirectoryEntry)
    ensures |IndexEntryBytes(entry)| == INDEX_ENTRY_LEN
  {
    hide EncodeLE;
    EncodedLength(RawKind(entry.kind), 2);
    EncodedLength(CompactFlags(entry.width), 2);
    EncodedLength(entry.keyStart, 4);
    EncodedLength(entry.keyCount, 4);
    EncodedLength(entry.rangeStart, 4);
    EncodedLength(entry.rangeCount, 4);
  }

  lemma {:induction false} IndexDirectoryLength(directory: seq<DirectoryEntry>)
    ensures |IndexDirectoryBytes(directory)| == |directory| * INDEX_ENTRY_LEN
  {
    hide IndexEntryBytes;
    if directory != [] {
      IndexEntryLength(directory[0]);
      IndexDirectoryLength(directory[1..]);
    }
  }

  /** The fields of an entry, where they lie. */
  predicate HasEntry(bytes: seq<byte>, at: nat, entry: DirectoryEntry)
    requires at + INDEX_ENTRY_LEN <= |bytes|
  {
    && FieldAt(bytes, at, 2) == RawKind(entry.kind) && FieldAt(bytes, at + 2, 2) == CompactFlags(entry.width)
    && FieldAt(bytes, at + 4, 4) == entry.keyStart && FieldAt(bytes, at + 8, 4) == entry.keyCount
    && FieldAt(bytes, at + 12, 4) == entry.rangeStart && FieldAt(bytes, at + 16, 4) == entry.rangeCount
  }

  lemma EntryHasFields(bytes: seq<byte>, at: nat, entry: DirectoryEntry)
    requires at + INDEX_ENTRY_LEN <= |bytes| && IndexEntryFits(entry) && bytes[at..at + INDEX_ENTRY_LEN] == IndexEntryBytes(entry)
    ensures HasEntry(bytes, at, entry)
  {
    hide EncodeLE, DecodeLE, Pow256, FieldAt;
    Powers();
    var slice := bytes[at..at + INDEX_ENTRY_LEN];
    var one: seq<byte> := [];
    var two := one + EncodeLE(RawKind(entry.kind), 2);
    var three := two + EncodeLE(CompactFlags(entry.width), 2);
    var four := three + EncodeLE(entry.keyStart, 4);
    var five := four + EncodeLE(entry.keyCount, 4);
    var six := five + EncodeLE(entry.rangeStart, 4);
    assert two == EncodeLE(RawKind(entry.kind), 2);
    assert slice[..20] == slice;
    LastValue(slice, six, entry.rangeCount, 4, 20);
    LastValue(slice, five, entry.rangeStart, 4, 16);
    LastValue(slice, four, entry.keyCount, 4, 12);
    LastValue(slice, three, entry.keyStart, 4, 8);
    LastValue(slice, two, CompactFlags(entry.width), 2, 4);
    LastValue(slice, one, RawKind(entry.kind), 2, 2);
    FieldMoves(bytes, at, slice, 0, 2);
    FieldMoves(bytes, at, slice, 2, 2);
    FieldMoves(bytes, at, slice, 4, 4);
    FieldMoves(bytes, at, slice, 8, 4);
    FieldMoves(bytes, at, slice, 12, 4);
    FieldMoves(bytes, at, slice, 16, 4);
  }

  lemma FieldMoves(bytes: seq<byte>, at: nat, slice: seq<byte>, offset: nat, width: nat)
    requires at + |slice| <= |bytes| && slice == bytes[at..at + |slice|] && offset + width <= |slice|
    ensures FieldAt(slice, offset, width) == FieldAt(bytes, at + offset, width)
  {
    var left, right := slice[offset..offset + width], bytes[at + offset..at + offset + width];
    assert |left| == |right| && forall i :: 0 <= i < width ==> left[i] == slice[offset + i] == bytes[at + offset + i] == right[i];
    assert left == right;
  }

  lemma FieldsMakeEntry(bytes: seq<byte>, at: nat, entry: DirectoryEntry)
    requires at + INDEX_ENTRY_LEN <= |bytes| && HasEntry(bytes, at, entry)
    ensures IndexEntryFits(entry) && bytes[at..at + INDEX_ENTRY_LEN] == IndexEntryBytes(entry)
  {
    hide EncodeLE, DecodeLE, Pow256, FieldAt;
    Powers();
    var slice := bytes[at..at + INDEX_ENTRY_LEN];
    FieldMoves(bytes, at, slice, 0, 2);
    FieldMoves(bytes, at, slice, 2, 2);
    FieldMoves(bytes, at, slice, 4, 4);
    FieldMoves(bytes, at, slice, 8, 4);
    FieldMoves(bytes, at, slice, 12, 4);
    FieldMoves(bytes, at, slice, 16, 4);
    var one: seq<byte> := [];
    var two := one + EncodeLE(RawKind(entry.kind), 2);
    var three := two + EncodeLE(CompactFlags(entry.width), 2);
    var four := three + EncodeLE(entry.keyStart, 4);
    var five := four + EncodeLE(entry.keyCount, 4);
    var six := five + EncodeLE(entry.rangeStart, 4);
    assert two == EncodeLE(RawKind(entry.kind), 2);
    NextValue(slice, one, 0, 2);
    NextValue(slice, two, 2, 2);
    NextValue(slice, three, 4, 4);
    NextValue(slice, four, 8, 4);
    NextValue(slice, five, 12, 4);
    NextValue(slice, six, 16, 4);
    assert slice[..20] == slice;
  }

  lemma EntryFieldsDetermine(bytes: seq<byte>, at: nat, left: DirectoryEntry, right: DirectoryEntry)
    requires at + INDEX_ENTRY_LEN <= |bytes| && HasEntry(bytes, at, left) && HasEntry(bytes, at, right)
    ensures left == right
  {
    hide FieldAt, KindFrom, WidthFromFlags;
    KindFromIsInverse(FieldAt(bytes, at, 2));
    WidthFromFlagsIsInverse(FieldAt(bytes, at + 2, 2));
  }

  /** The bytes of a directory determine it. */
  lemma {:induction false} DirectoryBytesInjective(left: seq<DirectoryEntry>, right: seq<DirectoryEntry>)
    requires |left| == |right| && IndexDirectoryBytes(left) == IndexDirectoryBytes(right)
    requires forall i :: 0 <= i < |left| ==> IndexEntryFits(left[i]) && IndexEntryFits(right[i])
    ensures left == right
  {
    hide IndexEntryBytes, HasEntry, IndexEntryFits;
    if left != [] {
      var bytes := IndexDirectoryBytes(left);
      IndexEntryLength(left[0]);
      IndexEntryLength(right[0]);
      assert bytes[0..INDEX_ENTRY_LEN] == IndexEntryBytes(left[0]) && bytes[0..INDEX_ENTRY_LEN] == IndexEntryBytes(right[0]);
      EntryHasFields(bytes, 0, left[0]);
      EntryHasFields(bytes, 0, right[0]);
      EntryFieldsDetermine(bytes, 0, left[0], right[0]);
      assert bytes[INDEX_ENTRY_LEN..] == IndexDirectoryBytes(left[1..]) == IndexDirectoryBytes(right[1..]);
      DirectoryBytesInjective(left[1..], right[1..]);
      assert left == [left[0]] + left[1..] && right == [right[0]] + right[1..];
    }
  }

  lemma {:induction false} DirectoryBytesAppend(directory: seq<DirectoryEntry>, last: DirectoryEntry)
    ensures IndexDirectoryBytes(directory + [last]) == IndexDirectoryBytes(directory) + IndexEntryBytes(last)
  {
    hide IndexEntryBytes;
    if directory == [] {
      assert directory + [last] == [last];
      assert IndexDirectoryBytes([last]) == IndexEntryBytes(last) + IndexDirectoryBytes([]);
    } else {
      assert (directory + [last])[1..] == directory[1..] + [last];
      DirectoryBytesAppend(directory[1..], last);
    }
  }

  method EncodeDirectory(directory: seq<DirectoryEntry>) returns (bytes: seq<byte>)
    ensures bytes == IndexDirectoryBytes(directory)
  {
    hide IndexEntryBytes;
    bytes := [];
    for i := 0 to |directory|
      invariant bytes + IndexDirectoryBytes(directory[i..]) == IndexDirectoryBytes(directory)
    {
      assert directory[i..][1..] == directory[i + 1..];
      bytes := bytes + IndexEntryBytes(directory[i]);
    }
  }

  /** Reads one entry: it succeeds exactly if one is stored there. */
  method DecodeEntry(cursor: BinaryCursor) returns (r: Result<DirectoryEntry, FormatError>)
    requires cursor.Valid() && cursor.offset + INDEX_ENTRY_LEN <= |cursor.bytes|
    modifies cursor
    ensures cursor.Valid() && (r.Ok? ==> cursor.offset == old(cursor.offset) + INDEX_ENTRY_LEN)
    ensures forall entry :: HasEntry(cursor.bytes, old(cursor.offset), entry) <==> r == Ok(entry)
  {
    hide EncodeLE, DecodeLE, Pow256, FieldAt, KindFrom, WidthFromFlags;
    ghost var at := cursor.offset;
    KindFromIsInverse(FieldAt(cursor.bytes, at, 2));
    WidthFromFlagsIsInverse(FieldAt(cursor.bytes, at + 2, 2));
    var raw := NextField(cursor, 2);
    var kind :- KindFrom(raw);
    var flags := NextField(cursor, 2);
    var width :- WidthFromFlags(flags);
    var keyStart := NextField(cursor, 4);
    var keyCount := NextField(cursor, 4);
    var rangeStart := NextField(cursor, 4);
    var rangeCount := NextField(cursor, 4);
    r := Ok(DirectoryEntry(kind, width, keyStart, keyCount, rangeStart, rangeCount));
  }

  method NextField(cursor: BinaryCursor, width: nat) returns (value: nat)
    requires cursor.Valid() && cursor.offset + width <= |cursor.bytes|
    modifies cursor
    ensures cursor.Valid() && cursor.offset == old(cursor.offset) + width
    ensures value == FieldAt(cursor.bytes, old(cursor.offset), width)
  {
    hide EncodeLE, DecodeLE, Pow256;
    var read := cursor.ReadValue(width);
    value := read.value;
    LittleEndianRoundTrip(value, width);
  }

  /** Reads the index directory: it succeeds exactly on the bytes of one that names every kind once. */
  method DecodeDirectory(bytes: seq<byte>, rowCount: nat) returns (r: Result<seq<DirectoryEntry>, FormatError>)
    ensures forall directory ::
      rowCount == |KINDS| && NamesKindsOnce(directory) && DirectoryStored(bytes, directory) <==> r == Ok(directory)
  {
    hide HasEntry, IndexDirectoryBytes, IndexEntryBytes, IndexEntryFits;
    forall directory | NamesKindsOnce(directory) && DirectoryStored(bytes, directory) ensures |bytes| == |KINDS| * INDEX_ENTRY_LEN {
      IndexDirectoryLength(directory);
    }
    if rowCount != |KINDS| || |bytes| != |KINDS| * INDEX_ENTRY_LEN {
      return Err(CountMismatch);
    }
    var cursor := new BinaryCursor(bytes);
    var read: seq<DirectoryEntry> := [];
    NothingStored(bytes);
    for i := 0 to |KINDS|
      invariant fresh(cursor) && cursor.Valid() && cursor.bytes == bytes && cursor.offset == i * INDEX_ENTRY_LEN && |read| == i
      invariant DirectoryStored(bytes[..cursor.offset], read)
      invariant forall j, k :: 0 <= j < k < i ==> read[j].kind != read[k].kind
    {
      ghost var at := cursor.offset;
      var entry := DecodeEntry(cursor);
      if entry.Err? {
        NoDirectoryHere(bytes, i);
        return Err(entry.error);
      }
      EntryStored(bytes, at, entry.value, read);
      if exists j :: 0 <= j < i && read[j].kind == entry.value.kind {
        KindStoredTwice(bytes, read, entry.value);
        return Err(DuplicateKey);
      }
      read := read + [entry.value];
    }
    assert bytes[..cursor.offset] == bytes;
    forall directory | NamesKindsOnce(directory) && DirectoryStored(bytes, directory) ensures directory == read {
      StoredOnce(bytes, directory, read);
    }
    r := Ok(read);
  }

  lemma NothingStored(bytes: seq<byte>)
    ensures DirectoryStored(bytes[..0], [])
  {
  }

  lemma StoredOnce(bytes: seq<byte>, left: seq<DirectoryEntry>, right: seq<DirectoryEntry>)
    requires |left| == |right| && DirectoryStored(bytes, left) && DirectoryStored(bytes, right)
    ensures left == right
  {
    DirectoryBytesInjective(left, right);
  }

  lemma EntryStored(bytes: seq<byte>, at: nat, entry: DirectoryEntry, before: seq<DirectoryEntry>)
    requires at + INDEX_ENTRY_LEN <= |bytes| && HasEntry(bytes, at, entry) && DirectoryStored(bytes[..at], before)
    ensures DirectoryStored(bytes[..at + INDEX_ENTRY_LEN], before + [entry])
  {
    hide IndexEntryBytes, HasEntry, IndexDirectoryBytes, IndexEntryFits;
    FieldsMakeEntry(bytes, at, entry);
    DirectoryBytesAppend(before, entry);
    assert bytes[..at + INDEX_ENTRY_LEN] == bytes[..at] + bytes[at..at + INDEX_ENTRY_LEN];
  }

  /** The entries of a stored directory, one behind another. */
  lemma {:induction false} StoredEntry(bytes: seq<byte>, directory: seq<DirectoryEntry>, i: nat)
    requires DirectoryStored(bytes, directory) && i < |directory|
    ensures |bytes| == |directory| * INDEX_ENTRY_LEN && HasEntry(bytes, i * INDEX_ENTRY_LEN, directory[i])
    ensures DirectoryStored(bytes[..i * INDEX_ENTRY_LEN], directory[..i])
    decreases |directory|
  {
    hide IndexEntryBytes, HasEntry, IndexEntryFits, IndexDirectoryBytes;
    IndexDirectoryLength(directory);
    var last := |directory| - 1;
    assert directory == directory[..last] + [directory[last]];
    DirectoryBytesAppend(directory[..last], directory[last]);
    IndexDirectoryLength(directory[..last]);
    IndexEntryLength(directory[last]);
    var at := last * INDEX_ENTRY_LEN;
    assert bytes[..at] == IndexDirectoryBytes(directory[..last]) && bytes[at..at + INDEX_ENTRY_LEN] == IndexEntryBytes(directory[last]);
    assert DirectoryStored(bytes[..at], directory[..last]);
    if i == last {
      EntryHasFields(bytes, at, directory[last]);
    } else {
      StoredEntry(bytes[..at], directory[..last], i);
      PrefixEntry(bytes, at, i * INDEX_ENTRY_LEN, directory[i]);
      assert bytes[..at][..i * INDEX_ENTRY_LEN] == bytes[..i * INDEX_ENTRY_LEN] && directory[..last][..i] == directory[..i];
    }
  }

  lemma PrefixEntry(bytes: seq<byte>, end: nat, at: nat, entry: DirectoryEntry)
    requires at + INDEX_ENTRY_LEN <= end <= |bytes| && HasEntry(bytes[..end], at, entry)
    ensures HasEntry(bytes, at, entry)
  {
    hide DecodeLE;
    FieldMoves(bytes, 0, bytes[..end], at, 2);
    FieldMoves(bytes, 0, bytes[..end], at + 2, 2);
    FieldMoves(bytes, 0, bytes[..end], at + 4, 4);
    FieldMoves(bytes, 0, bytes[..end], at + 8, 4);
    FieldMoves(bytes, 0, bytes[..end], at + 12, 4);
    FieldMoves(bytes, 0, bytes[..end], at + 16, 4);
  }

  lemma NoDirectoryHere(bytes: seq<byte>, i: nat)
    requires i < |KINDS| && |bytes| == |KINDS| * INDEX_ENTRY_LEN
    requires forall entry :: !HasEntry(bytes, i * INDEX_ENTRY_LEN, entry)
    ensures forall directory :: !(NamesKindsOnce(directory) && DirectoryStored(bytes, directory))
  {
    hide HasEntry, DirectoryStored;
    forall directory | NamesKindsOnce(directory) && DirectoryStored(bytes, directory) ensures false {
      StoredEntry(bytes, directory, i);
    }
  }

  lemma KindStoredTwice(bytes: seq<byte>, read: seq<DirectoryEntry>, entry: DirectoryEntry)
    requires |read| < |KINDS| && |bytes| == |KINDS| * INDEX_ENTRY_LEN
    requires DirectoryStored(bytes[..(|read| + 1) * INDEX_ENTRY_LEN], read + [entry])
    requires exists j :: 0 <= j < |read| && read[j].kind == entry.kind
    ensures forall directory :: !(NamesKindsOnce(directory) && DirectoryStored(bytes, directory))
  {
    hide HasEntry, DirectoryStored;
    forall directory | |directory| == |KINDS| && DirectoryStored(bytes, directory) ensures !NamesKindsOnce(directory) {
      var n := |read| + 1;
      assert directory[..|directory|] == directory && bytes[..|bytes|] == bytes;
      if n < |directory| {
        StoredEntry(bytes, directory, n);
      }
      StoredOnce(bytes[..n * INDEX_ENTRY_LEN], directory[..n], read + [entry]);
      var j :| 0 <= j < |read| && read[j].kind == entry.kind;
      assert directory[j] == read[j] && directory[|read|] == entry;
    }
  }
}
