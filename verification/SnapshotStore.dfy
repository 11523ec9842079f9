/** A whole store written into snapshot sections, and loaded from them in full validation. */
module SnapshotStore {
  import opened Vocabulary
  import opened Domain
  import opened Interner
  import opened IdentityIndex
  import opened LiveRows
  import opened PostingIndex
  import opened StoredRows
  import opened RelationshipStore
  import opened SnapshotBytes
  import opened PostingCodec
  import opened IndexGroups
  import opened GroupEncoding
  import opened IndexDecoder
  import opened IndexEncoder
  import opened PostingCounts
  import opened SnapshotRows
  import opened SnapshotSymbols
  import SpanCover

  const KINDS: seq<IndexKind> := [Resource, ResourceObject, ResourceTypeRelation, ResourceType, Subject, SubjectTypeRelation, SubjectType]

  datatype IndexSection = IndexSection(width: KeyWidth, keyBytes: seq<byte>, keyCount: nat, ranges: seq<DiskRange>)

  datatype StoreSections = StoreSections(
    symbols: SymbolSections,
    rows: seq<byte>,
    rowWidth: KeyWidth,
    rowCount: nat,
    indexes: seq<IndexSection>,
    postings: seq<byte>,
    postingCount: nat)

  // ---------------------------------------------------------------- posting spans

  function SpanOf(range: DiskRange): SpanCover.Span {
    SpanCover.Span(range.overflowStart, range.overflowStart + range.overflowLen)
  }

  /** The spans of the ranges that have one. */
  function SpansOf(ranges: seq<DiskRange>): seq<SpanCover.Span> {
    if ranges == [] then []
    else (if ranges[0].overflowLen == 0 then [] else [SpanOf(ranges[0])]) + SpansOf(ranges[1..])
  }

  function AllRanges(indexes: seq<IndexSection>): seq<DiskRange> {
    if indexes == [] then [] else indexes[0].ranges + AllRanges(indexes[1..])
  }

  ghost predicate FirstIdsValid(ranges: seq<DiskRange>, rowCount: nat) {
    forall i :: 0 <= i < |ranges| ==> 0 < ranges[i].firstRowId <= rowCount
  }

  lemma {:induction false} SpansAppend(left: seq<DiskRange>, right: seq<DiskRange>)
    ensures SpansOf(left + right) == SpansOf(left) + SpansOf(right)
  {
    hide SpanOf;
    if left == [] {
      assert left + right == right;
    } else {
      SpansAppend(left[1..], right);
      var first := if left[0].overflowLen == 0 then [] else [SpanOf(left[0])];
      assert (left + right)[1..] == left[1..] + right && (left + right)[0] == left[0];
      assert first + (SpansOf(left[1..]) + SpansOf(right)) == first + SpansOf(left[1..]) + SpansOf(right);
    }
  }

  lemma {:induction false} ContiguousAppend(left: seq<SpanCover.Span>, right: seq<SpanCover.Span>, from: nat, middle: nat, to: nat)
    requires SpanCover.Contiguous(left, from, middle) && SpanCover.Contiguous(right, middle, to)
    ensures SpanCover.Contiguous(left + right, from, to)
    decreases |left|
  {
    if left == [] {
      assert left + right == right;
    } else {
      ContiguousAppend(left[1..], right, left[0].end, middle, to);
      assert (left + right)[1..] == left[1..] + right;
    }
  }

  lemma {:induction false} AllRangesAppend(indexes: seq<IndexSection>, last: IndexSection)
    ensures AllRanges(indexes + [last]) == AllRanges(indexes) + last.ranges
  {
    if indexes == [] {
      assert indexes + [last] == [last];
      assert AllRanges([last]) == last.ranges + AllRanges([]);
    } else {
      AllRangesAppend(indexes[1..], last);
      assert (indexes + [last])[1..] == indexes[1..] + [last];
    }
  }

  lemma {:induction false} SpansAreNonempty(ranges: seq<DiskRange>)
    ensures forall i :: 0 <= i < |SpansOf(ranges)| ==> SpansOf(ranges)[i].start < SpansOf(ranges)[i].end
    ensures forall i :: 0 <= i < |ranges| && ranges[i].overflowLen != 0 ==> SpanOf(ranges[i]) in SpansOf(ranges)
  {
    if ranges != [] {
      SpansAreNonempty(ranges[1..]);
    }
  }

  lemma {:induction false} ContiguousEnds(spans: seq<SpanCover.Span>, from: nat, to: nat)
    requires SpanCover.Contiguous(spans, from, to)
    ensures from <= to && forall span :: span in spans ==> span.end <= to
    decreases |spans|
  {
    if spans != [] {
      ContiguousEnds(spans[1..], spans[0].end, to);
    }
  }

  ghost predicate NoneEmpty(ranges: seq<DiskRange>) {
    forall i :: 0 <= i < |ranges| ==> ranges[i].overflowLen != 0
  }

  ghost predicate AllWithin(ranges: seq<DiskRange>, total: nat) {
    forall i :: 0 <= i < |ranges| ==> ranges[i].overflowStart + ranges[i].overflowLen <= total
  }

  /** What writing produces: the spans follow one another through the whole section. */
  ghost predicate RangesTile(ranges: seq<DiskRange>, total: nat, rowCount: nat) {
    FirstIdsValid(ranges, rowCount) && AllWithin(ranges, total) && SpanCover.Contiguous(SpansOf(ranges), 0, total)
  }

  /** Written ranges share out the section. */
  lemma WrittenRangesCover(ranges: seq<DiskRange>, total: nat, rowCount: nat)
    requires RangesTile(ranges, total, rowCount)
    ensures FirstIdsValid(ranges, rowCount) && AllWithin(ranges, total) && SpanCover.CoversOnce(SpansOf(ranges), 0, total)
  {
    assert SpanCover.Tiles(SpansOf(ranges), total);
    SpanCover.TilesCoverOnce(SpansOf(ranges), total);
  }

  lemma TilesStayInside(ranges: seq<DiskRange>, total: nat, rowCount: nat)
    requires FirstIdsValid(ranges, rowCount) && SpanCover.Contiguous(SpansOf(ranges), 0, total) && NoneEmpty(ranges)
    ensures RangesTile(ranges, total, rowCount)
  {
    SpansAreNonempty(ranges);
    ContiguousEnds(SpansOf(ranges), 0, total);
    forall i | 0 <= i < |ranges| ensures ranges[i].overflowStart + ranges[i].overflowLen <= total {
      assert SpanOf(ranges[i]) in SpansOf(ranges);
    }
  }

  /** Checks the ranges of all indexes against the posting section: it accepts exactly ranges within it such
      that every byte belongs to one of them. */
  method ValidatePostingSpans(ranges: seq<DiskRange>, total: nat, rowCount: nat) returns (r: Result<(), FormatError>)
    ensures r.Ok? <==>
      FirstIdsValid(ranges, rowCount) && AllWithin(ranges, total) && SpanCover.CoversOnce(SpansOf(ranges), 0, total)
  {
    hide SpanCover.CoversOnce, SpanOf;
    var spans: seq<SpanCover.Span> := [];
    for i := 0 to |ranges|
      invariant FirstIdsValid(ranges[..i], rowCount) && AllWithin(ranges[..i], total) && spans == SpansOf(ranges[..i])
    {
      if ranges[i].firstRowId == 0 || ranges[i].firstRowId > rowCount {
        return Err(RowIdOutOfBounds);
      }
      if ranges[i].overflowStart + ranges[i].overflowLen > total {
        return Err(PostingOutOfBounds);
      }
      assert ranges[..i + 1] == ranges[..i] + [ranges[i]];
      SpansAppend(ranges[..i], [ranges[i]]);
      assert SpansOf([ranges[i]]) == (if ranges[i].overflowLen == 0 then [] else [SpanOf(ranges[i])]) + SpansOf([]);
      if ranges[i].overflowLen != 0 {
        spans := spans + [SpanOf(ranges[i])];
      }
    }
    assert ranges[..|ranges|] == ranges;
    SpansAreNonempty(ranges);
    SpanCover.CoveringTiles(spans, total);
    r := SpanCover.ValidateSpansCover(spans, total);
  }

  function RangesOf(entries: seq<DiskEntry>): seq<DiskRange> {
    seq(|entries|, i requires 0 <= i < |entries| => entries[i].range)
  }

  lemma LongerFirst(first: DiskEntry, rest: seq<DiskEntry>)
    ensures var others := RangesOf(Select(rest, IsLonger));
            RangesOf(Select([first] + rest, IsLonger)) == if IsLonger(first) then [first.range] + others else others
  {
    assert ([first] + rest)[1..] == rest;
  }

  lemma SpanFirst(first: DiskRange, rest: seq<DiskRange>)
    requires first.overflowLen != 0
    ensures SpansOf([first] + rest) == [SpanOf(first)] + SpansOf(rest)
  {
    assert ([first] + rest)[1..] == rest;
  }

  lemma ContiguousFirst(first: SpanCover.Span, rest: seq<SpanCover.Span>, to: nat)
    requires first.start <= first.end && SpanCover.Contiguous(rest, first.end, to)
    ensures SpanCover.Contiguous([first] + rest, first.start, to)
  {
    assert ([first] + rest)[1..] == rest;
  }

  /** The longer lists of a group are written one after another. */
  lemma {:induction false} LongerListsTile(group: seq<Posting>, offset: nat, rowCount: nat)
    requires ListsValid(group, rowCount)
    ensures var ranges := RangesOf(Select(EntriesOf(group, offset, rowCount), IsLonger));
            && SpanCover.Contiguous(SpansOf(ranges), offset, offset + |PostingBytes(group, rowCount)|)
            && FirstIdsValid(ranges, rowCount)
  {
    hide DeltaBytes, Select, SpansOf, SpanCover.Contiguous;
    if group == [] {
      NothingLonger(offset);
    } else {
      var size := |Deltas(group[0].rowIds)|;
      var first, rest := EntryOf(group[0], offset), EntriesOf(group[1..], offset + size, rowCount);
      LongerListsTile(group[1..], offset + size, rowCount);
      SingletonHasNoDeltas(group[0].rowIds);
      LongerFirst(first, rest);
      var others := RangesOf(Select(rest, IsLonger));
      if size != 0 {
        SpanFirst(first.range, others);
        ContiguousFirst(SpanOf(first.range), SpansOf(others), offset + |PostingBytes(group, rowCount)|);
      }
    }
  }

  lemma NothingLonger(offset: nat)
    ensures Select<DiskEntry>([], IsLonger) == [] && SpansOf([]) == [] && SpanCover.Contiguous([], offset, offset)
  {
  }

  // ---------------------------------------------------------------- one index

  /** The section stores the index of one kind over the rows. */
  ghost predicate StoresEntries(kind: IndexKind, section: IndexSection, entries: seq<DiskEntry>) {
    && |section.ranges| <= section.keyCount && KeysAscend(entries)
    && GroupStored(kind, section.width.ByteLen(), section.keyBytes, section.keyCount, section.ranges,
                   Select(entries, IsSingleton), Select(entries, IsLonger))
    && Merges(Select(entries, IsSingleton), Select(entries, IsLonger), entries)
  }

  ghost predicate IndexStored(kind: IndexKind, section: IndexSection, postings: seq<byte>, rows: seq<Row>, symbolCount: nat) {
    exists entries :: StoresEntries(kind, section, entries) && Faithful(kind, entries, postings, rows, symbolCount)
  }

  /** Loads one index in full validation. Whatever it accepts answers exactly. */
  method LoadIndex(kind: IndexKind, section: IndexSection, postings: seq<byte>, rows: seq<Row>, symbolCount: nat)
    returns (r: Result<PostingIndex<IndexKey>, FormatError>)
    ensures r.Ok? ==> fresh(r.value) && r.value.Valid() && r.value.less == KeyLess && SortedWithin(kind, r.value.table)
    ensures r.Ok? ==> TotalOverflow(r.value.table.ranges) == |r.value.table.rest|
    ensures r.Ok? ==> forall key: IndexKey :: r.value.Listed(key) == if KindOf(key) == kind then KeyRows(rows, key, |rows|) else []
    ensures IndexStored(kind, section, postings, rows, symbolCount) ==> r.Ok?
  {
    hide Faithful, GroupStored, Merges, KeyLess, Select, KeyRows, SortedWithin, TotalOverflow;
    var width := section.width.ByteLen();
    var entries, left, right := DecodeGroup(kind, width, section.keyBytes, section.keyCount, section.ranges);
    if entries.Err? {
      return Err(entries.error);
    }
    MergedAscends(left, right, entries.value);
    forall expected | StoresEntries(kind, section, expected) ensures expected == entries.value {
      StoredEntriesAreUnique(kind, section, expected, left, right, entries.value);
    }
    r := DecodeIndex(kind, entries.value, postings, rows, symbolCount, true);
  }

  lemma MergedAscends(left: seq<DiskEntry>, right: seq<DiskEntry>, merged: seq<DiskEntry>)
    requires Merges(left, right, merged)
    ensures KeysAscend(merged)
  {
  }

  lemma StoredEntriesAreUnique(kind: IndexKind, section: IndexSection, expected: seq<DiskEntry>,
                               left: seq<DiskEntry>, right: seq<DiskEntry>, merged: seq<DiskEntry>)
    requires StoresEntries(kind, section, expected)
    requires GroupStored(kind, section.width.ByteLen(), section.keyBytes, section.keyCount, section.ranges, left, right)
    requires Merges(left, right, merged)
    ensures expected == merged
  {
    hide GroupStored, KeysAscend;
    GroupIsUnique(kind, section.width.ByteLen(), section.keyBytes, section.keyCount, section.ranges,
                  left, right, Select(expected, IsSingleton), Select(expected, IsLonger));
    OrderIsUnique(merged, expected);
  }

  /** Bytes a group takes: keys with one row carry it, the others only name their key. */
  function GroupSize(kind: IndexKind, width: nat, keyCount: nat, longer: nat): nat
    requires longer <= keyCount
  {
    SingletonBytes(kind, width, keyCount, longer) + longer * EntryLength(kind, width, false)
  }

  /** The key bytes are as long as the counts say. */
  predicate SectionSized(kind: IndexKind, section: IndexSection) {
    && |section.ranges| <= section.keyCount
    && |section.keyBytes| == GroupSize(kind, section.width.ByteLen(), section.keyCount, |section.ranges|)
  }

  ghost predicate Sized(kinds: seq<IndexKind>, indexes: seq<IndexSection>)
    requires |kinds| == |indexes|
  {
    forall k :: 0 <= k < |indexes| ==> SectionSized(kinds[k], indexes[k])
  }

  lemma EncodedIsSized(kind: IndexKind, entries: seq<DiskEntry>, section: IndexSection)
    requires Encodes(kind, section.width.ByteLen(), entries, section.keyBytes, section.ranges) && section.keyCount == |entries|
    ensures SectionSized(kind, section)
  {
    var width := section.width.ByteLen();
    var singletons, longer := Select(entries, IsSingleton), Select(entries, IsLonger);
    EntriesBytesLength(kind, width, true, singletons);
    EntriesBytesLength(kind, width, false, longer);
    SplitSizes(entries);
  }

  lemma ListsAreValid(kind: IndexKind, rows: seq<Row>)
    ensures ListsValid(GroupFor(kind, rows), |rows|)
  {
    hide ListValid, GroupOf, GroupUpTo;
    GroupPostsRows(kind, rows, |rows|);
    forall i | 0 <= i < |GroupFor(kind, rows)| ensures ListValid(GroupFor(kind, rows)[i].rowIds, |rows|) {
      var key := CarriedKey(kind, GroupFor(kind, rows), rows, i);
      RowListIsValid(rows, key);
    }
  }

  /** The deltas of one index. */
  ghost function DeltasFor(kind: IndexKind, rows: seq<Row>): seq<byte> {
    ListsAreValid(kind, rows);
    PostingBytes(GroupFor(kind, rows), |rows|)
  }

  /** The section of one index whose deltas start at an offset. */
  ghost function SectionFor(kind: IndexKind, rows: seq<Row>, offset: nat): IndexSection {
    ListsAreValid(kind, rows);
    var group := GroupFor(kind, rows);
    var entries := EntriesOf(group, offset, |rows|);
    var width := WidthForMax(LargestField(kind, group, |group|));
    IndexSection(width, EntriesBytes(kind, width.ByteLen(), true, Select(entries, IsSingleton))
                        + EntriesBytes(kind, width.ByteLen(), false, Select(entries, IsLonger)),
                 |group|, RangesOf(Select(entries, IsLonger)))
  }

  /** Writes one index behind what the posting section already holds. */
  method SaveIndex(kind: IndexKind, rows: seq<Row>, before: seq<byte>, ghost symbolCount: nat)
    returns (section: IndexSection, postings: seq<byte>, extra: nat)
    requires AllResolve(rows, symbolCount) && symbolCount < U32_LIMIT && |rows| < U32_LIMIT
    ensures section == SectionFor(kind, rows, |before|) && postings == before + DeltasFor(kind, rows)
    ensures extra == Extra(GroupFor(kind, rows))
    ensures SpanCover.Contiguous(SpansOf(section.ranges), |before|, |postings|) && FirstIdsValid(section.ranges, |rows|)
    ensures NoneEmpty(section.ranges) && SectionSized(kind, section)
    ensures StoredThroughout(kind, section, postings, rows, symbolCount)
  {
    hide GroupOf, GroupValid, Encodes, EntriesOf, PostingBytes, StoresEntries, Faithful, IndexStored, FirstIdsValid, SectionSized;
    hide GroupUpTo, LargestField, Extra;
    var group := BuildGroup(kind, rows);
    ListsHaveFirst(group, |rows|, kind, rows);
    extra := Extra(group);
    BuiltGroupIsValid(kind, group, rows, symbolCount);
    GroupIsWritable(kind, group, |rows|);
    var encoded := EncodeGroup(kind, group, before, |rows|);
    section := IndexSection(encoded.width, encoded.keyBytes, |group|, encoded.ranges);
    postings := encoded.postings;
    EntriesOfShape(group, |before|, |rows|);
    EncodedIsSized(kind, EntriesOf(group, |before|, |rows|), section);
    EncodedKeys(kind, encoded.width.ByteLen(), EntriesOf(group, |before|, |rows|), encoded.keyBytes, encoded.ranges);
    RangesAreLonger(kind, encoded.width.ByteLen(), group, |before|, |rows|, encoded.keyBytes, encoded.ranges);
    LongerListsTile(group, |before|, |rows|);
    forall after: seq<byte> ensures IndexStored(kind, section, postings + after, rows, symbolCount) {
      WrittenIsStored(kind, group, section, before, after, rows, symbolCount);
    }
  }

  lemma EncodedKeys(kind: IndexKind, width: nat, entries: seq<DiskEntry>, bytes: seq<byte>, ranges: seq<DiskRange>)
    requires Encodes(kind, width, entries, bytes, ranges)
    ensures bytes == EntriesBytes(kind, width, true, Select(entries, IsSingleton)) + EntriesBytes(kind, width, false, Select(entries, IsLonger))
  {
  }

  lemma {:induction false} ExtraIsNat(group: seq<Posting>)
    requires forall i :: 0 <= i < |group| ==> group[i].rowIds != []
    ensures Extra(group) >= 0
  {
    if group != [] {
      ExtraIsNat(group[..|group| - 1]);
    }
  }

  lemma ListsHaveFirst(group: seq<Posting>, rowCount: nat, kind: IndexKind, rows: seq<Row>)
    requires GroupOf(kind, group, rows, |rows|, [])
    ensures Extra(group) >= 0
  {
    ExtraIsNat(group);
  }

  /** The index is stored, whatever is appended to the posting section. */
  ghost predicate StoredThroughout(kind: IndexKind, section: IndexSection, postings: seq<byte>, rows: seq<Row>, symbolCount: nat) {
    forall after: seq<byte> :: IndexStored(kind, section, postings + after, rows, symbolCount)
  }

  lemma GroupIsWritable(kind: IndexKind, group: seq<Posting>, rowCount: nat)
    requires GroupValid(kind, group, rowCount)
    ensures ListsValid(group, rowCount) && KeysFit(kind, group, U32_LIMIT)
  {
  }

  lemma RangesAreLonger(kind: IndexKind, width: nat, group: seq<Posting>, offset: nat, rowCount: nat, bytes: seq<byte>, ranges: seq<DiskRange>)
    requires ListsValid(group, rowCount) && Encodes(kind, width, EntriesOf(group, offset, rowCount), bytes, ranges)
    ensures ranges == RangesOf(Select(EntriesOf(group, offset, rowCount), IsLonger)) && NoneEmpty(ranges)
  {
    hide EntriesOf, EntriesBytes;
    var entries := EntriesOf(group, offset, rowCount);
    SelectMembers(entries, IsLonger);
    forall i | 0 <= i < |ranges| ensures ranges[i].overflowLen != 0 {
      assert Select(entries, IsLonger)[i] in Select(entries, IsLonger);
    }
  }

  lemma WrittenIsStored(kind: IndexKind, group: seq<Posting>, section: IndexSection, before: seq<byte>, after: seq<byte>,
                        rows: seq<Row>, symbolCount: nat)
    requires GroupOf(kind, group, rows, |rows|, []) && AllResolve(rows, symbolCount) && symbolCount < U32_LIMIT && |rows| < U32_LIMIT
    requires GroupValid(kind, group, |rows|) && ListsValid(group, |rows|) && section.keyCount == |group|
    requires KeysFit(kind, group, Pow256(section.width.ByteLen()))
    requires Encodes(kind, section.width.ByteLen(), EntriesOf(group, |before|, |rows|), section.keyBytes, section.ranges)
    ensures IndexStored(kind, section, before + PostingBytes(group, |rows|) + after, rows, symbolCount)
  {
    hide GroupOf, Encodes, EntriesOf, PostingBytes, Faithful, GroupStored, Merges, KeyFits, PostingList, Select, EntriesFit;
    var entries, width := EntriesOf(group, |before|, |rows|), section.width.ByteLen();
    EntriesOfShape(group, |before|, |rows|);
    EntriesAreStorable(kind, width, group, |before|, |rows|);
    EncodedGroupIsStored(kind, width, entries, section.keyBytes, section.ranges);
    EntriesReadBack(group, before, after, |rows|);
    CarriedGroupIsFaithful(kind, group, entries, before + PostingBytes(group, |rows|) + after, rows, symbolCount);
    assert StoresEntries(kind, section, entries);
  }

  // ---------------------------------------------------------------- all indexes

  function Tag(key: IndexKey): nat { KeyFields(key).0 }

  lemma TagIsKind(key: IndexKey)
    ensures Tag(key) < |KINDS| && KINDS[Tag(key)] == KindOf(key)
    ensures forall i :: 0 <= i < |KINDS| && KINDS[i] == KindOf(key) ==> i == Tag(key)
  {
  }

  /** The tables of the first `n` kinds, side by side: they answer every key of those kinds exactly. */
  ghost predicate TableExact(rows: seq<Row>, n: nat, keys: seq<IndexKey>, ranges: seq<PostingRange>, rest: seq<RowId>) {
    && |keys| == |ranges| && Ascending(KeyLess, keys)
    && (forall i :: 0 <= i < |keys| ==> EntryExact(rows, n, keys[i], ranges[i], rest))
    && (forall key: IndexKey :: Tag(key) < n && key !in keys ==> KeyRows(rows, key, |rows|) == [])
  }

  ghost predicate EntryExact(rows: seq<Row>, n: nat, key: IndexKey, range: PostingRange, rest: seq<RowId>) {
    && Tag(key) < n && range.overflowStart + range.overflowLen <= |rest|
    && RangeRows(range, rest) == KeyRows(rows, key, |rows|)
  }

  function Shifted(ranges: seq<PostingRange>, offset: nat): seq<PostingRange> {
    seq(|ranges|, i requires 0 <= i < |ranges| => ranges[i].(overflowStart := ranges[i].overflowStart + offset))
  }

  lemma ListedAt(table: PostingTable<IndexKey>, i: nat)
    requires StrictOrder(KeyLess) && TableValid(KeyLess, table) && table.Sorted? && i < |table.keys|
    ensures ListedIn(KeyLess, table, table.keys[i]) == RangeRows(table.ranges[i], table.rest)
  {
    hide RangeRows;
  }

  lemma NotListed(table: PostingTable<IndexKey>, key: IndexKey)
    requires StrictOrder(KeyLess) && TableValid(KeyLess, table) && table.Sorted? && key !in table.keys
    ensures ListedIn(KeyLess, table, key) == []
  {
  }

  /** The table of one kind answers its keys exactly. */
  ghost predicate KindExact(rows: seq<Row>, n: nat, keys: seq<IndexKey>, ranges: seq<PostingRange>, rest: seq<RowId>) {
    && |keys| == |ranges| && Ascending(KeyLess, keys)
    && (forall i :: 0 <= i < |keys| ==> Tag(keys[i]) == n && EntryExact(rows, n + 1, keys[i], ranges[i], rest))
    && (forall key: IndexKey :: Tag(key) == n && key !in keys ==> KeyRows(rows, key, |rows|) == [])
  }

  lemma LoadedIsExact(rows: seq<Row>, n: nat, index: PostingIndex<IndexKey>)
    requires n < |KINDS| && index.Valid() && index.less == KeyLess && SortedWithin(KINDS[n], index.table)
    requires forall key: IndexKey :: index.Listed(key) == if KindOf(key) == KINDS[n] then KeyRows(rows, key, |rows|) else []
    ensures index.table.Sorted? && KindExact(rows, n, index.table.keys, index.table.ranges, index.table.rest)
  {
    hide KeyLess, KeyRows, RangeRows, KeyFields, ListedIn;
    var table := index.table;
    forall i | 0 <= i < |table.keys|
      ensures Tag(table.keys[i]) == n && EntryExact(rows, n + 1, table.keys[i], table.ranges[i], table.rest)
    {
      TagIsKind(table.keys[i]);
      ListedAt(table, i);
      assert index.Listed(table.keys[i]) == KeyRows(rows, table.keys[i], |rows|);
    }
    forall key: IndexKey | Tag(key) == n && key !in table.keys ensures KeyRows(rows, key, |rows|) == [] {
      TagIsKind(key);
      NotListed(table, key);
      assert index.Listed(key) == KeyRows(rows, key, |rows|);
    }
  }

  lemma EntryStaysExact(rows: seq<Row>, n: nat, key: IndexKey, range: PostingRange, rest: seq<RowId>, more: seq<RowId>)
    requires EntryExact(rows, n, key, range, rest)
    ensures EntryExact(rows, n + 1, key, range, rest + more)
  {
    hide KeyRows, RangeRows, KeyFields;
    RangeRowsInside(range, rest, more);
  }

  lemma EntryMovesExact(rows: seq<Row>, n: nat, key: IndexKey, range: PostingRange, before: seq<RowId>, rest: seq<RowId>)
    requires EntryExact(rows, n, key, range, rest)
    ensures EntryExact(rows, n, key, range.(overflowStart := range.overflowStart + |before|), before + rest)
  {
    hide KeyRows, RangeRows, KeyFields;
    RangeRowsShifted(range, before, rest);
  }

  /** The table of the next kind put behind those before it. */
  lemma TableGrows(rows: seq<Row>, n: nat, keys: seq<IndexKey>, ranges: seq<PostingRange>, rest: seq<RowId>,
                   moreKeys: seq<IndexKey>, moreRanges: seq<PostingRange>, moreRest: seq<RowId>)
    requires TableExact(rows, n, keys, ranges, rest) && KindExact(rows, n, moreKeys, moreRanges, moreRest)
    ensures TableExact(rows, n + 1, keys + moreKeys, ranges + Shifted(moreRanges, |rest|), rest + moreRest)
  {
    hide KeyLess, KeyRows, RangeRows, EntryExact;
    var allKeys, allRanges := keys + moreKeys, ranges + Shifted(moreRanges, |rest|);
    forall i | 0 <= i < |allKeys| ensures EntryExact(rows, n + 1, allKeys[i], allRanges[i], rest + moreRest) {
      if i < |keys| {
        EntryStaysExact(rows, n, keys[i], ranges[i], rest, moreRest);
      } else {
        EntryMovesExact(rows, n + 1, moreKeys[i - |keys|], moreRanges[i - |keys|], rest, moreRest);
      }
    }
    forall i, j | 0 <= i < j < |allKeys| ensures KeyLess(allKeys[i], allKeys[j]) {
      if i < |keys| <= j {
        TagBelow(rows, n, keys[i], ranges[i], rest);
        TagsOrder(keys[i], moreKeys[j - |keys|]);
      }
    }
  }

  lemma TagBelow(rows: seq<Row>, n: nat, key: IndexKey, range: PostingRange, rest: seq<RowId>)
    requires EntryExact(rows, n, key, range, rest)
    ensures Tag(key) < n
  {
  }

  lemma TagsOrder(left: IndexKey, right: IndexKey)
    requires Tag(left) < Tag(right)
    ensures KeyLess(left, right)
  {
  }

  lemma RangeRowsInside(range: PostingRange, rest: seq<RowId>, more: seq<RowId>)
    requires range.overflowStart + range.overflowLen <= |rest|
    ensures RangeRows(range, rest + more) == RangeRows(range, rest)
  {
    assert (rest + more)[range.overflowStart..range.overflowStart + range.overflowLen]
        == rest[range.overflowStart..range.overflowStart + range.overflowLen];
  }

  lemma RangeRowsShifted(range: PostingRange, before: seq<RowId>, rest: seq<RowId>)
    requires range.overflowStart + range.overflowLen <= |rest|
    ensures RangeRows(range.(overflowStart := range.overflowStart + |before|), before + rest) == RangeRows(range, rest)
  {
    var start := range.overflowStart + |before|;
    assert (before + rest)[start..start + range.overflowLen] == rest[range.overflowStart..range.overflowStart + range.overflowLen];
  }

  ghost predicate AllStored(indexes: seq<IndexSection>, postings: seq<byte>, rows: seq<Row>, symbolCount: nat) {
    |indexes| == |KINDS| && forall k :: 0 <= k < |KINDS| ==> IndexStored(KINDS[k], indexes[k], postings, rows, symbolCount)
  }

  /** The row ids beside the first in the indexes of the first `n` kinds. */
  ghost function PostingTotal(rows: seq<Row>, n: nat): int
    requires n <= |KINDS|
  {
    if n == 0 then 0 else PostingTotal(rows, n - 1) + Extra(GroupFor(KINDS[n - 1], rows))
  }

  lemma KindCount(rows: seq<Row>, n: nat, keys: seq<IndexKey>, ranges: seq<PostingRange>, rest: seq<RowId>)
    requires n < |KINDS| && KindExact(rows, n, keys, ranges, rest)
    ensures TotalOverflow(ranges) == Extra(GroupFor(KINDS[n], rows))
  {
    hide KeyLess, KeyRows, KeyFields, Extra, GroupUpTo, TotalOverflow, Ascending;
    forall i | 0 <= i < |keys|
      ensures KindOf(keys[i]) == KINDS[n] && KeyRows(rows, keys[i], |rows|) != []
      ensures ranges[i].overflowStart + ranges[i].overflowLen <= |rest| && RangeRows(ranges[i], rest) == KeyRows(rows, keys[i], |rows|)
    {
      assert EntryExact(rows, n + 1, keys[i], ranges[i], rest);
      TagIsKind(keys[i]);
    }
    forall key: IndexKey | KindOf(key) == KINDS[n] && key !in keys ensures KeyRows(rows, key, |rows|) == [] {
      TagIsKind(key);
    }
    LoadedCount(KINDS[n], keys, ranges, rest, rows);
  }

  /** Loads the indexes of a full profile. */
  method LoadIndexes(indexes: seq<IndexSection>, postings: seq<byte>, postingCount: nat, rows: seq<Row>, symbolCount: nat)
    returns (r: Result<PostingIndex<IndexKey>, FormatError>)
    requires |indexes| == |KINDS|
    ensures r.Ok? ==> fresh(r.value) && r.value.Valid() && r.value.less == KeyLess
    ensures r.Ok? ==> forall key: IndexKey :: r.value.Listed(key) == KeyRows(rows, key, |rows|)
    ensures r.Ok? ==> postingCount == PostingTotal(rows, |KINDS|)
    ensures AllStored(indexes, postings, rows, symbolCount) && RangesTile(AllRanges(indexes), |postings|, |rows|) ==>
      postingCount == PostingTotal(rows, |KINDS|) ==> r.Ok?
  {
    hide Extra, GroupUpTo, TotalOverflow;
    hide KeyLess, KeyRows, RangeRows, KeyFields, IndexStored, SortedWithin, TableExact, KindExact, StrictOrder, RangesTile, FirstIdsValid, AllWithin, SpanCover.CoversOnce;
    if RangesTile(AllRanges(indexes), |postings|, |rows|) {
      WrittenRangesCover(AllRanges(indexes), |postings|, |rows|);
    }
    var spans := ValidatePostingSpans(AllRanges(indexes), |postings|, |rows|);
    if spans.Err? {
      return Err(spans.error);
    }
    KeysAreOrdered();
    NoTables(rows);
    var keys: seq<IndexKey>, ranges: seq<PostingRange>, rest: seq<RowId> := [], [], [];
    for n := 0 to |KINDS|
      invariant TableExact(rows, n, keys, ranges, rest) && |rest| == PostingTotal(rows, n)
    {
      var index := LoadIndex(KINDS[n], indexes[n], postings, rows, symbolCount);
      if index.Err? {
        return Err(index.error);
      }
      LoadedIsExact(rows, n, index.value);
      KindCount(rows, n, index.value.table.keys, index.value.table.ranges, index.value.table.rest);
      TableGrows(rows, n, keys, ranges, rest, index.value.table.keys, index.value.table.ranges, index.value.table.rest);
      keys := keys + index.value.table.keys;
      ranges := ranges + Shifted(index.value.table.ranges, |rest|);
      rest := rest + index.value.table.rest;
    }
    if |rest| != postingCount {
      return Err(CountMismatch);
    }
    TableAnswers(rows, keys, ranges, rest);
    var joined := new PostingIndex<IndexKey>.FromSorted(KeyLess, keys, ranges, rest);
    forall key: IndexKey ensures joined.Listed(key) == KeyRows(rows, key, |rows|) {
      if i :| 0 <= i < |keys| && keys[i] == key {
        assert joined.Listed(keys[i]) == RangeRows(ranges[i], rest);
      }
    }
    r := Ok(joined);
  }

  lemma NoTables(rows: seq<Row>)
    ensures TableExact(rows, 0, [], [], [])
  {
  }

  lemma TableAnswers(rows: seq<Row>, keys: seq<IndexKey>, ranges: seq<PostingRange>, rest: seq<RowId>)
    requires TableExact(rows, |KINDS|, keys, ranges, rest)
    ensures |keys| == |ranges| && Ascending(KeyLess, keys)
    ensures forall i :: 0 <= i < |keys| ==> RangeRows(ranges[i], rest) == KeyRows(rows, keys[i], |rows|)
    ensures forall key: IndexKey :: key !in keys ==> KeyRows(rows, key, |rows|) == []
  {
    hide KeyLess, KeyRows, RangeRows, KeyFields;
    forall i | 0 <= i < |keys| ensures RangeRows(ranges[i], rest) == KeyRows(rows, keys[i], |rows|) {
      assert EntryExact(rows, |KINDS|, keys[i], ranges[i], rest);
    }
    forall key: IndexKey | key !in keys ensures KeyRows(rows, key, |rows|) == [] {
      TagIsKind(key);
    }
  }

  /** The indexes of the first `n` kinds, and their deltas. */
  ghost function PostingsFor(rows: seq<Row>, n: nat): seq<byte>
    requires n <= |KINDS|
  {
    if n == 0 then [] else PostingsFor(rows, n - 1) + DeltasFor(KINDS[n - 1], rows)
  }

  ghost function IndexesFor(rows: seq<Row>, n: nat): seq<IndexSection>
    requires n <= |KINDS|
  {
    if n == 0 then [] else IndexesFor(rows, n - 1) + [SectionFor(KINDS[n - 1], rows, |PostingsFor(rows, n - 1)|)]
  }

  function AllKeys(indexes: seq<IndexSection>): seq<byte> {
    if indexes == [] then [] else indexes[0].keyBytes + AllKeys(indexes[1..])
  }

  function CountKeys(indexes: seq<IndexSection>): nat {
    if indexes == [] then 0 else indexes[0].keyCount + CountKeys(indexes[1..])
  }

  /** What has to fit 32 bits: where the keys of each index begin, the counts, and where each list of
      deltas begins and how long it is. The last keys and the last deltas may reach beyond. */
  predicate IndexesFitU32(indexes: seq<IndexSection>, postingCount: int) {
    && (forall k :: 0 <= k < |indexes| ==> |AllKeys(indexes[..k])| < U32_LIMIT)
    && CountKeys(indexes) < U32_LIMIT && |AllRanges(indexes)| < U32_LIMIT && postingCount < U32_LIMIT
    && forall range: DiskRange :: range in AllRanges(indexes) ==> range.overflowStart < U32_LIMIT && range.overflowLen < U32_LIMIT
  }

  /** Writes the indexes of a full profile, kind after kind. */
  method SaveIndexes(rows: seq<Row>, ghost symbolCount: nat) returns (indexes: seq<IndexSection>, postings: seq<byte>, postingCount: nat)
    requires AllResolve(rows, symbolCount) && symbolCount < U32_LIMIT && |rows| < U32_LIMIT
    ensures indexes == IndexesFor(rows, |KINDS|) && postings == PostingsFor(rows, |KINDS|) && postingCount == PostingTotal(rows, |KINDS|)
    ensures |indexes| == |KINDS| && AllStored(indexes, postings, rows, symbolCount) && RangesTile(AllRanges(indexes), |postings|, |rows|)
    ensures Sized(KINDS, indexes)
  {
    hide StoredThroughout, AllResolve, Tiling, RangesTile, AllRanges, SpansOf, SectionSized;
    hide Extra, GroupUpTo, DeltasFor, SectionFor;
    indexes, postings, postingCount := [], [], 0;
    ghost var ends: seq<seq<byte>> := [];
    NothingTiles(|rows|);
    for n := 0 to |KINDS|
      invariant |indexes| == n == |ends| && Tiling(indexes, |postings|, |rows|)
      invariant indexes == IndexesFor(rows, n) && postings == PostingsFor(rows, n) && postingCount == PostingTotal(rows, n)
      invariant forall k :: 0 <= k < n ==> SectionSized(KINDS[k], indexes[k])
      invariant forall k :: 0 <= k < n ==> ends[k] <= postings && StoredThroughout(KINDS[k], indexes[k], ends[k], rows, symbolCount)
    {
      var section, written, extra := SaveIndex(KINDS[n], rows, postings, symbolCount);
      TilingGrows(indexes, section, |postings|, |written|, |rows|);
      indexes, postings, postingCount := indexes + [section], written, postingCount + extra;
      ends := ends + [written];
    }
    TilingIsWhole(indexes, |postings|, |rows|);
    forall k | 0 <= k < |KINDS| ensures IndexStored(KINDS[k], indexes[k], postings, rows, symbolCount) {
      StillStored(KINDS[k], indexes[k], ends[k], postings, rows, symbolCount);
    }
  }

  /** The indexes written so far fill the posting section so far. */
  ghost predicate Tiling(indexes: seq<IndexSection>, total: nat, rowCount: nat) {
    && SpanCover.Contiguous(SpansOf(AllRanges(indexes)), 0, total)
    && FirstIdsValid(AllRanges(indexes), rowCount) && NoneEmpty(AllRanges(indexes))
  }

  lemma NothingTiles(rowCount: nat)
    ensures Tiling([], 0, rowCount)
  {
  }

  lemma TilingGrows(indexes: seq<IndexSection>, section: IndexSection, from: nat, to: nat, rowCount: nat)
    requires Tiling(indexes, from, rowCount) && SpanCover.Contiguous(SpansOf(section.ranges), from, to)
    requires FirstIdsValid(section.ranges, rowCount) && NoneEmpty(section.ranges)
    ensures Tiling(indexes + [section], to, rowCount)
  {
    hide SpanCover.Contiguous, SpansOf, AllRanges;
    AllRangesAppend(indexes, section);
    SpansAppend(AllRanges(indexes), section.ranges);
    ContiguousAppend(SpansOf(AllRanges(indexes)), SpansOf(section.ranges), 0, from, to);
  }

  lemma TilingIsWhole(indexes: seq<IndexSection>, total: nat, rowCount: nat)
    requires Tiling(indexes, total, rowCount)
    ensures RangesTile(AllRanges(indexes), total, rowCount)
  {
    TilesStayInside(AllRanges(indexes), total, rowCount);
  }

  lemma StillStored(kind: IndexKind, section: IndexSection, end: seq<byte>, postings: seq<byte>, rows: seq<Row>, symbolCount: nat)
    requires StoredThroughout(kind, section, end, rows, symbolCount) && end <= postings
    ensures IndexStored(kind, section, postings, rows, symbolCount)
  {
    hide IndexStored;
    assert postings == end + postings[|end|..];
  }

  // ---------------------------------------------------------------- whole stores

  function AllIds(count: nat): (r: set<RowId>)
    ensures forall i: RowId :: i in r <==> i < count
  {
    if count == 0 then {} else AllIds(count - 1) + {count - 1}
  }

  /** The relationships of rows that are all alive. */
  ghost function AllRelationships(names: seq<string>, rows: seq<Row>): seq<Relationship>
    requires AllResolve(rows, |names|)
  {
    LiveRelationships(names, rows, AllIds(|rows|), |rows|)
  }

  /** Sections a store can be loaded from: symbols, acceptable rows over them, and a full set of indexes over
      those rows. */
  ghost predicate StoreAcceptable(hash: Hasher, sections: StoreSections, names: seq<string>, rows: seq<Row>) {
    && SymbolsAcceptable(hash, sections.symbols) && names == NamesOf(sections.symbols.bytes, Entries(sections.symbols))
    && |names| == sections.symbols.count
    && |rows| == sections.rowCount && StoresRows(sections.rows, sections.rowWidth.ByteLen(), rows) && Acceptable(rows, names)
    && AllStored(sections.indexes, sections.postings, rows, sections.symbols.count)
    && sections.postingCount == PostingTotal(rows, |KINDS|)
    && RangesTile(AllRanges(sections.indexes), |sections.postings|, |rows|)
  }

  /** Loads a store in full validation. Whatever bytes it accepts, the store it returns is valid: it holds
      exactly the relationships of the stored rows, and every query answers as a scan over them would. */
  method LoadStore(symbolHash: Hasher, rowHash: Row -> nat, sections: StoreSections)
    returns (r: Result<IndexedRelationshipStore, FormatError>, ghost names: seq<string>, ghost rows: seq<Row>)
    requires |sections.indexes| == |KINDS|
    ensures r.Ok? ==> fresh(r.value) && r.value.Valid() && r.value.uniqueness == KnownUniqueButNotIndexed
    ensures r.Ok? ==> SymbolsAcceptable(symbolHash, sections.symbols)
    ensures r.Ok? ==> names == NamesOf(sections.symbols.bytes, Entries(sections.symbols)) && Acceptable(rows, names)
    ensures r.Ok? ==> StoresRows(sections.rows, sections.rowWidth.ByteLen(), rows) && |rows| == sections.rowCount
    ensures r.Ok? ==> r.value.Contents() == AllRelationships(names, rows)
    ensures forall names', rows' :: StoreAcceptable(symbolHash, sections, names', rows') ==> r.Ok? && names == names' && rows == rows'
  {
    hide SymbolsAcceptable, Acceptable, StoresRows, Pow256, AllStored, RangesTile, KeyRows, KeyLess, KeysOf, StrictOrder, TablesFind, SortedFinds, NoRepeats, LiveRelationships;
    hide PostingTotal;
    names, rows := [], [];
    var symbols := DecodeSymbols(symbolHash, sections.symbols);
    if symbols.Err? {
      return Err(symbols.error), names, rows;
    }
    var interner := symbols.value;
    var known := ListNames(interner);
    var decoded := DecodeRows(sections.rows, sections.rowWidth.ByteLen(), sections.rowCount, known, rowHash);
    if decoded.Err? {
      return Err(decoded.error), names, rows;
    }
    var indexes := LoadIndexes(sections.indexes, sections.postings, sections.postingCount, decoded.value, sections.symbols.count);
    if indexes.Err? {
      return Err(indexes.error), names, rows;
    }
    names, rows := known, decoded.value;
    AcceptableRows(decoded.value, known);
    var live := new LiveRows.Full(|decoded.value|);
    var store := new IndexedRelationshipStore.Of(symbolHash, rowHash, interner, decoded.value, live, 0, KnownUniqueButNotIndexed, indexes.value);
    assert store.Alive() == AllIds(|decoded.value|);
    r := Ok(store);
  }

  lemma AcceptableRows(rows: seq<Row>, names: seq<string>)
    requires Acceptable(rows, names)
    ensures AllResolve(rows, |names|) && AllDiffer(rows, AllIds(|rows|))
  {
    hide ToRelationship, ValidRelationship, Resolves;
    forall i: RowId, j: RowId | i < |rows| && j < |rows| && i != j ensures rows[i] != rows[j] {
      assert i < j || j < i;
    }
  }

  // ---------------------------------------------------------------- saving

  /** The live rows among the first `n`, in order. */
  function LiveOnly(rows: seq<Row>, alive: set<RowId>, n: nat): seq<Row>
    requires n <= |rows|
  {
    if n == 0 then [] else LiveOnly(rows, alive, n - 1) + if n - 1 in alive then [rows[n - 1]] else []
  }

  /** Leaving out the dead rows leaves the relationships as they are. */
  lemma {:induction false} LiveOnlyKeeps(names: seq<string>, rows: seq<Row>, alive: set<RowId>, n: nat)
    requires n <= |rows| && AllResolve(rows, |names|)
    ensures AllResolve(LiveOnly(rows, alive, n), |names|) && |LiveOnly(rows, alive, n)| <= n
    ensures AllRelationships(names, LiveOnly(rows, alive, n)) == LiveRelationships(names, rows, alive, n)
  {
    hide ToRelationship, Resolves;
    if n == 0 {
      assert AllRelationships(names, []) == [];
    } else {
      LiveOnlyKeeps(names, rows, alive, n - 1);
      if n - 1 in alive {
        AllAppend(names, LiveOnly(rows, alive, n - 1), rows[n - 1]);
      } else {
        assert LiveOnly(rows, alive, n) == LiveOnly(rows, alive, n - 1);
      }
    }
  }

  lemma AllAppend(names: seq<string>, rows: seq<Row>, last: Row)
    requires AllResolve(rows, |names|) && Resolves(last, |names|)
    ensures AllResolve(rows + [last], |names|)
    ensures AllRelationships(names, rows + [last]) == AllRelationships(names, rows) + [ToRelationship(names, last)]
  {
    hide ToRelationship, Resolves;
    var all := rows + [last];
    LiveSame(names, all, AllIds(|all|), names, rows, AllIds(|rows|), |rows|);
  }

  ghost predicate IsLiveBefore(rows: seq<Row>, alive: set<RowId>, n: nat, row: Row) {
    exists i: RowId :: i < n && i < |rows| && i in alive && rows[i] == row
  }

  lemma {:induction false} LiveOnlyOnce(rows: seq<Row>, alive: set<RowId>, n: nat)
    requires n <= |rows| && AllDiffer(rows, alive)
    ensures RowsDiffer(LiveOnly(rows, alive, n))
    ensures forall k :: 0 <= k < |LiveOnly(rows, alive, n)| ==> IsLiveBefore(rows, alive, n, LiveOnly(rows, alive, n)[k])
  {
    if n > 0 {
      LiveOnlyOnce(rows, alive, n - 1);
      var before := LiveOnly(rows, alive, n - 1);
      forall k | 0 <= k < |before| ensures IsLiveBefore(rows, alive, n, before[k]) && (n - 1 in alive ==> before[k] != rows[n - 1]) {
        assert IsLiveBefore(rows, alive, n - 1, before[k]);
        var i: RowId :| i < n - 1 && i < |rows| && i in alive && rows[i] == before[k];
      }
    }
  }

  lemma AllRelationshipsAre(names: seq<string>, rows: seq<Row>, i: nat)
    requires AllResolve(rows, |names|) && i < |rows|
    ensures ToRelationship(names, rows[i]) in AllRelationships(names, rows)
  {
    LiveMembers(names, rows, AllIds(|rows|), |rows|, ToRelationship(names, rows[i]));
  }

  /** What a store is saved from: its live rows. */
  method ListLiveRows(store: IndexedRelationshipStore) returns (rows: seq<Row>)
    requires store.Valid()
    ensures rows == LiveOnly(store.rows, store.Alive(), |store.rows|)
  {
    hide KeysOf, ListedIn, StrictOrder, TableValid, TablesValid, Filed, TablesFind, SortedFinds, NamesOf, LiveRelationships, KeyRows, AllDiffer;
    rows := [];
    for i := 0 to |store.rows|
      invariant rows == LiveOnly(store.rows, store.Alive(), i)
    {
      if store.live.Contains(i) {
        rows := rows + [store.rows[i]];
      }
    }
  }

  ghost predicate AllValid(relationships: seq<Relationship>) {
    forall x :: x in relationships ==> ValidRelationship(x)
  }

  /** The rows a store is saved from are acceptable and stand for its contents. */
  lemma SavedRowsAreAcceptable(store: IndexedRelationshipStore, rows: seq<Row>)
    requires store.Valid() && !store.uniqueness.UntrustedNotIndexed? && AllValid(store.Contents())
    requires rows == LiveOnly(store.rows, store.Alive(), |store.rows|)
    ensures Acceptable(rows, store.Names()) && AllRelationships(store.Names(), rows) == store.Contents() && |rows| <= |store.rows|
  {
    hide KeysOf, ListedIn, StrictOrder, TableValid, TablesValid, Filed, TablesFind, SortedFinds, NamesOf, LiveRelationships, KeyRows, ToRelationship, ValidRelationship, AllRelationships, LiveOnly;
    LiveOnlyKeeps(store.Names(), store.rows, store.Alive(), |store.rows|);
    LiveOnlyOnce(store.rows, store.Alive(), |store.rows|);
    forall i | 0 <= i < |rows| ensures ValidRelationship(ToRelationship(store.Names(), rows[i])) {
      AllRelationshipsAre(store.Names(), rows, i);
    }
  }

  /** The rows a store is saved from. */
  ghost function SavedRows(store: IndexedRelationshipStore): seq<Row>
    reads store, store.live
  {
    LiveOnly(store.rows, store.Alive(), |store.rows|)
  }

  /** Everything written about the store fits 32 bits. */
  ghost predicate Storable(store: IndexedRelationshipStore)
    reads store, store.live, store.interner
  {
    && |store.interner.bytes| < U32_LIMIT && |store.interner.entries| < U32_LIMIT && |SavedRows(store)| < U32_LIMIT
    && IndexesFitU32(IndexesFor(SavedRows(store), |KINDS|), PostingTotal(SavedRows(store), |KINDS|))
  }

  /** A store whose relationships are known to differ and to be valid. */
  ghost predicate Savable(store: IndexedRelationshipStore)
    reads store, store.Parts()
  {
    && store.Valid() && !store.uniqueness.UntrustedNotIndexed? && AllValid(store.Contents())
    && HashesAreU64(store.symbolHash)
  }

  /** Everything written in the sections fits 32 bits. */
  ghost predicate FitsU32(sections: StoreSections) {
    && |sections.symbols.bytes| < U32_LIMIT && sections.symbols.count < U32_LIMIT && sections.rowCount < U32_LIMIT
    && IndexesFitU32(sections.indexes, sections.postingCount)
  }

  /** The sections store these rows, which stand for the contents of the store. */
  ghost predicate SavedAs(store: IndexedRelationshipStore, sections: StoreSections, rows: seq<Row>)
    requires store.Valid()
    reads store, store.Parts()
  {
    && |sections.indexes| == |KINDS| && StoreAcceptable(store.symbolHash, sections, store.Names(), rows)
    && AllResolve(rows, |store.Names()|) && AllRelationships(store.Names(), rows) == store.Contents()
    && sections.symbols.bytes == store.interner.bytes && Sized(KINDS, sections.indexes) && FitsU32(sections)
  }

  /** Writes a store's sections, unless something does not fit 32 bits. */
  method SaveStore(store: IndexedRelationshipStore) returns (r: Result<StoreSections, FormatError>, ghost rows: seq<Row>)
    requires Savable(store)
    ensures r.Ok? <==> Storable(store)
    ensures r.Ok? ==> SavedAs(store, r.value, rows)
  {
    hide SymbolsAcceptable, RowsBytes, Pow256, AllStored, RangesTile, KeyRows, KeyLess, KeysOf, StrictOrder, TablesFind, SortedFinds, NoRepeats, LiveRelationships, ListedIn, TableValid, TablesValid, Filed, ToRelationship, ValidRelationship, AllRelationships, LiveOnly, Sized;
    hide IndexesFitU32, IndexesFor, PostingTotal;
    rows := [];
    if |store.interner.bytes| >= U32_LIMIT || |store.interner.entries| >= U32_LIMIT {
      return Err(SectionOutOfBounds), rows;
    }
    var symbols := EncodeSymbols(store.interner);
    var live := ListLiveRows(store);
    if |live| >= U32_LIMIT {
      return Err(SectionOutOfBounds), rows;
    }
    SavedRowsAreAcceptable(store, live);
    var width := WidthForMax(|store.interner.entries|);
    WidthFits(|store.interner.entries|, |store.interner.entries|);
    WideRowsFit(live, |store.interner.entries|, width.ByteLen());
    var bytes := EncodeRows(live, width.ByteLen());
    var indexes, postings, postingCount := SaveIndexes(live, symbols.count);
    if !IndexesFitU32(indexes, postingCount) {
      return Err(SectionOutOfBounds), rows;
    }
    rows := live;
    r := Ok(StoreSections(symbols, bytes, width, |live|, indexes, postings, postingCount));
  }

  /** Saving a store and loading it again gives the same relationships, in the same order. */
  method SaveThenLoad(store: IndexedRelationshipStore) returns (r: Result<IndexedRelationshipStore, FormatError>)
    requires Savable(store)
    ensures r.Ok? <==> Storable(store)
    ensures r.Ok? ==> r.value.Valid() && r.value.Contents() == store.Contents()
  {
    hide Storable, StoreAcceptable, IndexedRelationshipStore.Valid, LiveRelationships, AllRelationships, StoresRows, Acceptable;
    var saved, rows := SaveStore(store);
    if saved.Err? {
      return Err(saved.error);
    }
    var loaded, names, read := LoadStore(store.symbolHash, store.rowHash, saved.value);
    r := loaded;
  }
}
