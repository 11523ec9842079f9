/** The index directory of a snapshot: which bytes of the key section and which posting ranges belong to
    which index. */
module IndexDirectory {
  import opened Vocabulary
  import opened Interner
  import opened IdentityIndex
  import opened StoredRows
  import opened RelationshipStore
  import opened SnapshotBytes
  import opened IndexGroups
  import opened SnapshotRows
  import opened SnapshotSymbols
  import opened PostingCodec
  import opened SnapshotStore

  datatype DirectoryEntry = DirectoryEntry(kind: IndexKind, width: KeyWidth, keyStart: nat, keyCount: nat, rangeStart: nat, rangeCount: nat)

  /** The sections all indexes share; the row count of the key section counts keys, not bytes. */
  datatype IndexFile = IndexFile(directory: seq<DirectoryEntry>, keys: seq<byte>, keyRows: nat, ranges: seq<DiskRange>)

  function KeyEnd(entry: DirectoryEntry): nat {
    if entry.rangeCount > entry.keyCount then entry.keyStart
    else entry.keyStart + GroupSize(entry.kind, entry.width.ByteLen(), entry.keyCount, entry.rangeCount)
  }

  function KeySpan(entry: DirectoryEntry): (span: SpanCover.Span)
    ensures span.start == entry.keyStart <= span.end == KeyEnd(entry)
  {
    SpanCover.Span(entry.keyStart, KeyEnd(entry))
  }

  function RangeSpan(entry: DirectoryEntry): SpanCover.Span {
    SpanCover.Span(entry.rangeStart, entry.rangeStart + entry.rangeCount)
  }

  function KeySpans(directory: seq<DirectoryEntry>): seq<SpanCover.Span> {
    seq(|directory|, i requires 0 <= i < |directory| => KeySpan(directory[i]))
  }

  function RangeSpans(directory: seq<DirectoryEntry>): seq<SpanCover.Span> {
    seq(|directory|, i requires 0 <= i < |directory| => RangeSpan(directory[i]))
  }

  function TotalKeys(directory: seq<DirectoryEntry>): nat {
    if directory == [] then 0 else TotalKeys(directory[..|directory| - 1]) + directory[|directory| - 1].keyCount
  }

  function TotalRanges(directory: seq<DirectoryEntry>): nat {
    if directory == [] then 0 else TotalRanges(directory[..|directory| - 1]) + directory[|directory| - 1].rangeCount
  }

  predicate InBounds(entry: DirectoryEntry, file: IndexFile) {
    && entry.rangeCount <= entry.keyCount
    && KeyEnd(entry) <= |file.keys| && entry.rangeStart + entry.rangeCount <= |file.ranges|
  }

  ghost predicate AllInBounds(directory: seq<DirectoryEntry>, file: IndexFile) {
    forall i :: 0 <= i < |directory| ==> InBounds(directory[i], file)
  }

  /** The indexes share out the key bytes and the ranges among them, with nothing left over. */
  ghost predicate SharesOut(file: IndexFile) {
    && AllInBounds(file.directory, file)
    && TotalKeys(file.directory) == file.keyRows && TotalRanges(file.directory) == |file.ranges|
    && SpanCover.Tiles(KeySpans(file.directory), |file.keys|) && SpanCover.Tiles(RangeSpans(file.directory), |file.ranges|)
  }

  /** Checks the directory against the sections: it succeeds exactly if the indexes share them out. */
  method ValidateLayout(file: IndexFile) returns (r: Result<(), FormatError>)
    ensures r.Ok? <==> SharesOut(file)
  {
    hide KeyEnd, SpanCover.Tiles, GroupSize;
    var keys, ranges := 0, 0;
    for i := 0 to |file.directory|
      invariant AllInBounds(file.directory[..i], file)
      invariant keys == TotalKeys(file.directory[..i]) && ranges == TotalRanges(file.directory[..i])
    {
      var entry := file.directory[i];
      assert file.directory[..i + 1][..i] == file.directory[..i];
      if !InBounds(entry, file) {
        return Err(SectionOutOfBounds);
      }
      keys, ranges := keys + entry.keyCount, ranges + entry.rangeCount;
    }
    assert file.directory[..|file.directory|] == file.directory;
    if keys != file.keyRows || ranges != |file.ranges| {
      return Err(CountMismatch);
    }
    var covered := SpanCover.ValidateSpansCover(KeySpans(file.directory), |file.keys|);
    if covered.Err? {
      return covered;
    }
    r := SpanCover.ValidateSpansCover(RangeSpans(file.directory), |file.ranges|);
  }

  lemma {:induction false} HeldTwice(spans: seq<SpanCover.Span>, i: nat, j: nat, offset: nat)
    requires i < j < |spans| && SpanCover.Holds(spans[i], offset) && SpanCover.Holds(spans[j], offset)
    ensures SpanCover.Hits(spans, offset) > 1
  {
    if i == 0 {
      assert spans[1..][j - 1] == spans[j];
      SpanCover.HeldSomewhere(spans[1..], offset);
    } else {
      HeldTwice(spans[1..], i - 1, j - 1, offset);
    }
  }

  /** In an accepted layout every key byte and every range belongs to exactly one index. */
  lemma SharesAreDisjoint(file: IndexFile, i: nat, j: nat, offset: nat)
    requires SharesOut(file) && i < j < |file.directory|
    ensures !(SpanCover.Holds(KeySpan(file.directory[i]), offset) && SpanCover.Holds(KeySpan(file.directory[j]), offset))
    ensures !(SpanCover.Holds(RangeSpan(file.directory[i]), offset) && SpanCover.Holds(RangeSpan(file.directory[j]), offset))
  {
    hide SpanCover.Tiles, KeyEnd;
    SpanCover.TilesCoverOnce(KeySpans(file.directory), |file.keys|);
    SpanCover.TilesCoverOnce(RangeSpans(file.directory), |file.ranges|);
    if SpanCover.Holds(KeySpan(file.directory[i]), offset) && SpanCover.Holds(KeySpan(file.directory[j]), offset) {
      HeldTwice(KeySpans(file.directory), i, j, offset);
    }
    if SpanCover.Holds(RangeSpan(file.directory[i]), offset) && SpanCover.Holds(RangeSpan(file.directory[j]), offset) {
      HeldTwice(RangeSpans(file.directory), i, j, offset);
    }
  }

  // ---------------------------------------------------------------- slicing

  function EntryOf(directory: seq<DirectoryEntry>, kind: IndexKind): Option<DirectoryEntry> {
    if directory == [] then None
    else if directory[0].kind == kind then Some(directory[0])
    else EntryOf(directory[1..], kind)
  }

  lemma {:induction false} FoundEntry(directory: seq<DirectoryEntry>, kind: IndexKind)
    requires EntryOf(directory, kind).Some?
    ensures exists i :: 0 <= i < |directory| && directory[i] == EntryOf(directory, kind).value
  {
    if directory[0].kind != kind {
      FoundEntry(directory[1..], kind);
      var i :| 0 <= i < |directory[1..]| && directory[1..][i] == EntryOf(directory, kind).value;
      assert directory[i + 1] == EntryOf(directory, kind).value;
    }
  }

  /** The part of the shared sections an entry names. */
  function SectionOf(entry: DirectoryEntry, file: IndexFile): IndexSection
    requires InBounds(entry, file)
  {
    IndexSection(entry.width, file.keys[entry.keyStart..KeyEnd(entry)], entry.keyCount,
                 file.ranges[entry.rangeStart..entry.rangeStart + entry.rangeCount])
  }

  /** Cuts the shared sections into the indexes, kind by kind. */
  method SliceIndexes(file: IndexFile) returns (r: Result<seq<IndexSection>, FormatError>)
    requires AllInBounds(file.directory, file)
    ensures r.Ok? <==> forall k :: 0 <= k < |KINDS| ==> EntryOf(file.directory, KINDS[k]).Some?
    ensures r.Ok? ==> |r.value| == |KINDS| && forall k :: 0 <= k < |KINDS| ==>
      var entry := EntryOf(file.directory, KINDS[k]).value; InBounds(entry, file) && r.value[k] == SectionOf(entry, file)
  {
    hide EntryOf, KeyEnd;
    var indexes: seq<IndexSection> := [];
    for n := 0 to |KINDS|
      invariant |indexes| == n
      invariant forall k :: 0 <= k < n ==> EntryOf(file.directory, KINDS[k]).Some?
      invariant forall k :: 0 <= k < n ==>
        var entry := EntryOf(file.directory, KINDS[k]).value; InBounds(entry, file) && indexes[k] == SectionOf(entry, file)
    {
      var entry := EntryOf(file.directory, KINDS[n]);
      if entry.None? {
        return Err(IndexIncomplete);
      }
      FoundEntry(file.directory, KINDS[n]);
      indexes := indexes + [SectionOf(entry.value, file)];
    }
    r := Ok(indexes);
  }

  // ---------------------------------------------------------------- writing

  /** Entries for indexes written one after another. */
  function DirectoryOf(kinds: seq<IndexKind>, indexes: seq<IndexSection>, keyStart: nat, rangeStart: nat): seq<DirectoryEntry>
    requires |kinds| == |indexes|
  {
    if indexes == [] then []
    else
      [DirectoryEntry(kinds[0], indexes[0].width, keyStart, indexes[0].keyCount, rangeStart, |indexes[0].ranges|)]
      + DirectoryOf(kinds[1..], indexes[1..], keyStart + |indexes[0].keyBytes|, rangeStart + |indexes[0].ranges|)
  }

  function WriteIndexes(indexes: seq<IndexSection>): IndexFile
    requires |indexes| == |KINDS|
  {
    IndexFile(DirectoryOf(KINDS, indexes, 0, 0), AllKeys(indexes), CountKeys(indexes), AllRanges(indexes))
  }

  /** Every entry names the part its index was written to, whatever was written before and after. */
  lemma {:induction false} WrittenEntries(kinds: seq<IndexKind>, indexes: seq<IndexSection>, keys: seq<byte>, ranges: seq<DiskRange>, k: nat)
    requires |kinds| == |indexes| && Sized(kinds, indexes) && k < |indexes|
    ensures var directory := DirectoryOf(kinds, indexes, |keys|, |ranges|);
            && |directory| == |indexes| && directory[k].kind == kinds[k] && directory[k].rangeCount <= directory[k].keyCount
            && KeyEnd(directory[k]) <= |keys + AllKeys(indexes)|
            && directory[k].rangeStart + directory[k].rangeCount <= |ranges + AllRanges(indexes)|
            && indexes[k] == IndexSection(directory[k].width, (keys + AllKeys(indexes))[directory[k].keyStart..KeyEnd(directory[k])], directory[k].keyCount,
                                          (ranges + AllRanges(indexes))[directory[k].rangeStart..directory[k].rangeStart + directory[k].rangeCount])
    decreases |indexes|
  {
    hide GroupSize;
    var first := indexes[0];
    assert keys + AllKeys(indexes) == keys + first.keyBytes + AllKeys(indexes[1..]);
    assert ranges + AllRanges(indexes) == ranges + first.ranges + AllRanges(indexes[1..]);
    DirectoryLength(kinds[1..], indexes[1..], |keys| + |first.keyBytes|, |ranges| + |first.ranges|);
    if k > 0 {
      WrittenEntries(kinds[1..], indexes[1..], keys + first.keyBytes, ranges + first.ranges, k - 1);
    }
  }

  lemma {:induction false} DirectoryLength(kinds: seq<IndexKind>, indexes: seq<IndexSection>, keyStart: nat, rangeStart: nat)
    requires |kinds| == |indexes|
    ensures |DirectoryOf(kinds, indexes, keyStart, rangeStart)| == |indexes|
  {
    if indexes != [] {
      DirectoryLength(kinds[1..], indexes[1..], keyStart + |indexes[0].keyBytes|, rangeStart + |indexes[0].ranges|);
    }
  }

  lemma {:induction false} TotalsFromHead(first: DirectoryEntry, rest: seq<DirectoryEntry>)
    ensures TotalKeys([first] + rest) == first.keyCount + TotalKeys(rest)
    ensures TotalRanges([first] + rest) == first.rangeCount + TotalRanges(rest)
    decreases |rest|
  {
    if rest != [] {
      var last := |rest| - 1;
      assert ([first] + rest)[..last + 1] == [first] + rest[..last];
      TotalsFromHead(first, rest[..last]);
    }
  }

  lemma {:induction false} WrittenTotals(kinds: seq<IndexKind>, indexes: seq<IndexSection>, keyStart: nat, rangeStart: nat)
    requires |kinds| == |indexes|
    ensures var directory := DirectoryOf(kinds, indexes, keyStart, rangeStart);
            TotalKeys(directory) == CountKeys(indexes) && TotalRanges(directory) == |AllRanges(indexes)|
    decreases |indexes|
  {
    if indexes != [] {
      var directory := DirectoryOf(kinds, indexes, keyStart, rangeStart);
      var keyEnd, rangeEnd := keyStart + |indexes[0].keyBytes|, rangeStart + |indexes[0].ranges|;
      WrittenTotals(kinds[1..], indexes[1..], keyEnd, rangeEnd);
      TotalsFromHead(directory[0], DirectoryOf(kinds[1..], indexes[1..], keyEnd, rangeEnd));
    }
  }

  lemma SpansFromHead(first: DirectoryEntry, rest: seq<DirectoryEntry>)
    ensures KeySpans([first] + rest) == [KeySpan(first)] + KeySpans(rest)
    ensures RangeSpans([first] + rest) == [RangeSpan(first)] + RangeSpans(rest)
  {
  }

  lemma {:induction false} WrittenSpans(kinds: seq<IndexKind>, indexes: seq<IndexSection>, keyStart: nat, rangeStart: nat)
    requires |kinds| == |indexes| && Sized(kinds, indexes)
    ensures var directory := DirectoryOf(kinds, indexes, keyStart, rangeStart);
            && SpanCover.Contiguous(KeySpans(directory), keyStart, keyStart + |AllKeys(indexes)|)
            && SpanCover.Contiguous(RangeSpans(directory), rangeStart, rangeStart + |AllRanges(indexes)|)
    decreases |indexes|
  {
    hide GroupSize;
    if indexes != [] {
      var keyEnd, rangeEnd := keyStart + |indexes[0].keyBytes|, rangeStart + |indexes[0].ranges|;
      var first := DirectoryEntry(kinds[0], indexes[0].width, keyStart, indexes[0].keyCount, rangeStart, |indexes[0].ranges|);
      var rest := DirectoryOf(kinds[1..], indexes[1..], keyEnd, rangeEnd);
      WrittenSpans(kinds[1..], indexes[1..], keyEnd, rangeEnd);
      SpansFromHead(first, rest);
      ContiguousFirst(KeySpan(first), KeySpans(rest), keyStart + |AllKeys(indexes)|);
      ContiguousFirst(RangeSpan(first), RangeSpans(rest), rangeStart + |AllRanges(indexes)|);
    }
  }

  lemma {:induction false} FirstOfKind(directory: seq<DirectoryEntry>, k: nat)
    requires k < |directory| && forall i :: 0 <= i < k ==> directory[i].kind != directory[k].kind
    ensures EntryOf(directory, directory[k].kind) == Some(directory[k])
  {
    if k > 0 {
      FirstOfKind(directory[1..], k - 1);
    }
  }

  lemma KindsDiffer()
    ensures forall i, j :: 0 <= i < j < |KINDS| ==> KINDS[i] != KINDS[j]
  {
  }

  /** Written indexes are accepted and cut out again as they were. */
  lemma DirectoryRoundTrip(indexes: seq<IndexSection>)
    requires |indexes| == |KINDS| && Sized(KINDS, indexes)
    ensures SharesOut(WriteIndexes(indexes))
    ensures forall k :: 0 <= k < |KINDS| ==>
              var file := WriteIndexes(indexes); var entry := EntryOf(file.directory, KINDS[k]);
              entry.Some? && InBounds(entry.value, file) && indexes[k] == SectionOf(entry.value, file)
  {
    hide KeyEnd, DirectoryOf, TotalKeys, TotalRanges, SpanCover.Contiguous, AllRanges, AllKeys, EntryOf, Sized;
    var file := WriteIndexes(indexes);
    WrittenTotals(KINDS, indexes, 0, 0);
    WrittenSpans(KINDS, indexes, 0, 0);
    assert SpanCover.Tiles(KeySpans(file.directory), |file.keys|) && SpanCover.Tiles(RangeSpans(file.directory), |file.ranges|);
    DirectoryLength(KINDS, indexes, 0, 0);
    assert [] + file.keys == file.keys && [] + file.ranges == file.ranges;
    forall k | 0 <= k < |KINDS|
      ensures InBounds(file.directory[k], file) && file.directory[k].kind == KINDS[k] && indexes[k] == SectionOf(file.directory[k], file)
    {
      WrittenEntries(KINDS, indexes, [], [], k);
    }
    KindsDiffer();
    forall k | 0 <= k < |KINDS| ensures EntryOf(file.directory, KINDS[k]) == Some(file.directory[k]) {
      FirstOfKind(file.directory, k);
    }
  }

  // ---------------------------------------------------------------- whole stores

  /** A store in the sections it is filed under. */
  datatype StoreFile = StoreFile(symbols: SymbolSections, rows: seq<byte>, rowWidth: KeyWidth, rowCount: nat, indexes: IndexFile, postings: seq<byte>,
                                 postingCount: nat)

  function StoreFileOf(sections: StoreSections): StoreFile
    requires |sections.indexes| == |KINDS|
  {
    StoreFile(sections.symbols, sections.rows, sections.rowWidth, sections.rowCount, WriteIndexes(sections.indexes), sections.postings,
              sections.postingCount)
  }

  function Sliced(file: StoreFile, indexes: seq<IndexSection>): StoreSections {
    StoreSections(file.symbols, file.rows, file.rowWidth, file.rowCount, indexes, file.postings, file.postingCount)
  }

  ghost predicate WrittenFrom(file: StoreFile, sections: StoreSections) {
    |sections.indexes| == |KINDS| && Sized(KINDS, sections.indexes) && file == StoreFileOf(sections)
  }

  /** Each kind of index has one entry. */
  predicate NamesKindsOnce(directory: seq<DirectoryEntry>) {
    |directory| == |KINDS| && forall i, j :: 0 <= i < j < |directory| ==> directory[i].kind != directory[j].kind
  }

  /** The relationships are those of the rows the file stores, in their order. */
  ghost predicate Holds(file: StoreFile, contents: seq<Relationship>, names: seq<string>, rows: seq<Row>) {
    && Fits(file.symbols.bytes, Entries(file.symbols)) && names == NamesOf(file.symbols.bytes, Entries(file.symbols)) && Acceptable(rows, names) && AllResolve(rows, |names|)
    && StoresRows(file.rows, file.rowWidth.ByteLen(), rows) && |rows| == file.rowCount
    && contents == AllRelationships(names, rows)
  }

  /** Loads a store from its file in full validation. Whatever it accepts, the sections are shared out among
      the indexes and the store holds the rows of the file; a file that was written from acceptable sections is
      accepted. */
  method LoadFile(symbolHash: Hasher, rowHash: Row -> nat, file: StoreFile) returns (r: Result<IndexedRelationshipStore, FormatError>)
    ensures r.Ok? ==> fresh(r.value) && r.value.Valid() && NamesKindsOnce(file.indexes.directory) && SharesOut(file.indexes)
    ensures r.Ok? ==> exists names, rows :: Holds(file, r.value.Contents(), names, rows)
    ensures forall sections, names, rows ::
      WrittenFrom(file, sections) && StoreAcceptable(symbolHash, sections, names, rows) ==>
        r.Ok? && AllResolve(rows, |names|) && r.value.Contents() == AllRelationships(names, rows)
  {
    hide StoreAcceptable, IndexedRelationshipStore.Valid, LiveRelationships, AllRelationships, StoresRows, Acceptable, SharesOut, SectionOf, InBounds, DirectoryOf, EntryOf, Sized, WriteIndexes;
    forall sections | WrittenFrom(file, sections)
      ensures NamesKindsOnce(file.indexes.directory) && SharesOut(file.indexes)
      ensures forall k :: 0 <= k < |KINDS| ==>
        var entry := EntryOf(file.indexes.directory, KINDS[k]);
        entry.Some? && InBounds(entry.value, file.indexes) && sections.indexes[k] == SectionOf(entry.value, file.indexes)
    {
      DirectoryRoundTrip(sections.indexes);
      WrittenKindsOnce(sections.indexes);
    }
    if !NamesKindsOnce(file.indexes.directory) {
      return Err(IndexIncomplete);
    }
    var layout := ValidateLayout(file.indexes);
    if layout.Err? {
      return Err(layout.error);
    }
    LayoutIsInBounds(file.indexes);
    var indexes := SliceIndexes(file.indexes);
    if indexes.Err? {
      return Err(indexes.error);
    }
    forall sections | WrittenFrom(file, sections)
      ensures sections == Sliced(file, indexes.value)
    {
      assert sections.indexes == indexes.value;
    }
    var loaded, names, rows := LoadStore(symbolHash, rowHash, Sliced(file, indexes.value));
    AcceptedResolve(names, rows, loaded);
    if loaded.Ok? {
      LoadedHolds(file, loaded.value, names, rows);
    }
    r := loaded;
  }

  lemma LoadedHolds(file: StoreFile, store: IndexedRelationshipStore, names: seq<string>, rows: seq<Row>)
    requires store.Valid() && Fits(file.symbols.bytes, Entries(file.symbols)) && Acceptable(rows, names) && AllResolve(rows, |names|)
    requires names == NamesOf(file.symbols.bytes, Entries(file.symbols))
    requires StoresRows(file.rows, file.rowWidth.ByteLen(), rows) && |rows| == file.rowCount
    requires store.Contents() == AllRelationships(names, rows)
    ensures Holds(file, store.Contents(), names, rows)
  {
  }

  lemma LayoutIsInBounds(file: IndexFile)
    requires SharesOut(file)
    ensures AllInBounds(file.directory, file)
  {
  }

  lemma AcceptedResolve(names: seq<string>, rows: seq<Row>, loaded: Result<IndexedRelationshipStore, FormatError>)
    requires loaded.Ok? ==> Acceptable(rows, names)
    ensures loaded.Ok? ==> AllResolve(rows, |names|)
  {
    if loaded.Ok? {
      AcceptableRows(rows, names);
    }
  }

  lemma WrittenKindsOnce(indexes: seq<IndexSection>)
    requires |indexes| == |KINDS| && Sized(KINDS, indexes)
    ensures NamesKindsOnce(WriteIndexes(indexes).directory)
  {
    hide DirectoryOf, GroupSize, AllKeys, AllRanges, KeyEnd;
    DirectoryLength(KINDS, indexes, 0, 0);
    forall k | 0 <= k < |KINDS| ensures WriteIndexes(indexes).directory[k].kind == KINDS[k] {
      WrittenEntries(KINDS, indexes, [], [], k);
    }
    KindsDiffer();
  }

  /** Writing a store to a file and loading it again gives the same relationships, in the same order. */
  method StoreFileRoundTrip(store: IndexedRelationshipStore) returns (r: Result<IndexedRelationshipStore, FormatError>)
    requires Savable(store)
    ensures r.Ok? <==> Storable(store)
    ensures r.Ok? ==> r.value.Valid() && r.value.Contents() == store.Contents()
  {
    hide Storable, StoreAcceptable, IndexedRelationshipStore.Valid, LiveRelationships, AllRelationships, StoresRows, Acceptable, Sized, StoreFileOf, SharesOut;
    var saved, rows := SaveStore(store);
    if saved.Err? {
      return Err(saved.error);
    }
    r := LoadFile(store.symbolHash, store.rowHash, StoreFileOf(saved.value));
  }
}
