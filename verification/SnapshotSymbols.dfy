/** The symbol sections of a snapshot: where each symbol lies in the symbol bytes, the hashes, and the ids in
    hash order. */
module SnapshotSymbols {
  import opened Vocabulary
  import opened Interner
  import opened SnapshotBytes
  import opened SnapshotRows

  const HASH_BYTES := 8

  datatype SymbolSections = SymbolSections(
    bytes: string,
    table: seq<byte>,
    startWidth: KeyWidth,
    lenWidth: KeyWidth,
    hashes: seq<byte>,
    lookup: seq<byte>,
    lookupWidth: KeyWidth,
    count: nat)

  // ---------------------------------------------------------------- values of one width

  /** What so many values of one width take. */
  function Room(count: nat, width: nat): nat { count * width }

  lemma WholeRoom(count: nat, width: nat)
    ensures Room(count, width) == count * width && Room(0, width) == 0
  {
  }

  lemma OneLess(count: nat, width: nat)
    requires count > 0
    ensures Room(count, width) == width + Room(count - 1, width)
  {
  }

  /** The values in a section of whole values. */
  function ValuesIn(bytes: seq<byte>, width: nat): seq<nat>
    requires width > 0
  {
    if |bytes| < width then [] else [DecodeLE(bytes[..width])] + ValuesIn(bytes[width..], width)
  }

  lemma {:induction false} ValuesReadBack(values: seq<nat>, width: nat)
    requires width > 0 && forall i :: 0 <= i < |values| ==> values[i] < Pow256(width)
    ensures ValuesIn(FieldBytes(values, width), width) == values
  {
    if values != [] {
      EncodedLength(values[0], width);
      LittleEndianRoundTrip(values[0], width);
      var bytes := FieldBytes(values, width);
      assert bytes[..width] == EncodeLE(values[0], width) && bytes[width..] == FieldBytes(values[1..], width);
      ValuesReadBack(values[1..], width);
    }
  }

  lemma {:induction false} ValueCount(bytes: seq<byte>, width: nat, count: nat)
    requires width > 0 && |bytes| == count * width
    ensures |ValuesIn(bytes, width)| == count
  {
    if count > 0 {
      assert count * width == width + (count - 1) * width;
      ValueCount(bytes[width..], width, count - 1);
    } else {
      assert count * width == 0;
    }
  }

  lemma NextValueIn(bytes: seq<byte>, at: nat, width: nat, value: nat)
    requires width > 0 && at + width <= |bytes| && value < Pow256(width) && EncodeLE(value, width) == bytes[at..at + width]
    ensures ValuesIn(bytes[at..], width) == [value] + ValuesIn(bytes[at + width..], width)
  {
    hide EncodeLE, DecodeLE, Pow256;
    LittleEndianRoundTrip(value, width);
    assert bytes[at..][..width] == bytes[at..at + width] && bytes[at..][width..] == bytes[at + width..];
  }

  /** Reads a section of whole values. */
  method DecodeValues(bytes: seq<byte>, width: nat, count: nat) returns (r: Result<seq<nat>, FormatError>)
    requires width > 0
    ensures r.Ok? <==> |bytes| == count * width
    ensures r.Ok? ==> r.value == ValuesIn(bytes, width) && |r.value| == count
  {
    hide EncodeLE, DecodeLE, Pow256, ValuesIn, Room;
    WholeRoom(count, width);
    if |bytes| != count * width {
      return Err(CountMismatch);
    }
    ValueCount(bytes, width, count);
    var cursor := new BinaryCursor(bytes);
    var values: seq<nat> := [];
    for i := 0 to count
      invariant fresh(cursor) && cursor.Valid() && cursor.bytes == bytes
      invariant |values| == i && cursor.offset + Room(count - i, width) == |bytes|
      invariant ValuesIn(bytes, width) == values + ValuesIn(bytes[cursor.offset..], width)
    {
      OneLess(count - i, width);
      ghost var start := cursor.offset;
      var value := cursor.ReadValue(width);
      NextValueIn(bytes, start, width, value.value);
      values := values + [value.value];
    }
    r := Ok(values);
  }

  // ---------------------------------------------------------------- the symbol table

  function TableBytes(entries: seq<InternedString>, startWidth: nat, lenWidth: nat): seq<byte> {
    if entries == [] then []
    else EncodeLE(entries[0].start, startWidth) + EncodeLE(entries[0].len, lenWidth) + TableBytes(entries[1..], startWidth, lenWidth)
  }

  /** The entries in a table of whole entries. */
  function EntriesIn(table: seq<byte>, startWidth: nat, lenWidth: nat): seq<InternedString>
    requires startWidth > 0 && lenWidth > 0
  {
    if |table| < startWidth + lenWidth then []
    else [InternedString(DecodeLE(table[..startWidth]), DecodeLE(table[startWidth..startWidth + lenWidth]))]
         + EntriesIn(table[startWidth + lenWidth..], startWidth, lenWidth)
  }

  ghost predicate SymbolsFit(entries: seq<InternedString>, startWidth: nat, lenWidth: nat) {
    forall i :: 0 <= i < |entries| ==> entries[i].start < Pow256(startWidth) && entries[i].len < Pow256(lenWidth)
  }

  lemma ThreeParts(first: seq<byte>, second: seq<byte>, third: seq<byte>)
    ensures var whole, middle := first + second + third, |first| + |second|;
            whole[..|first|] == first && whole[|first|..middle] == second && whole[middle..] == third
  {
  }

  lemma {:induction false} TableReadsBack(entries: seq<InternedString>, startWidth: nat, lenWidth: nat)
    requires startWidth > 0 && lenWidth > 0 && SymbolsFit(entries, startWidth, lenWidth)
    ensures EntriesIn(TableBytes(entries, startWidth, lenWidth), startWidth, lenWidth) == entries
    ensures |TableBytes(entries, startWidth, lenWidth)| == |entries| * (startWidth + lenWidth)
  {
    hide EncodeLE, DecodeLE, Pow256;
    if entries != [] {
      var first, rest := entries[0], TableBytes(entries[1..], startWidth, lenWidth);
      var start, len := EncodeLE(first.start, startWidth), EncodeLE(first.len, lenWidth);
      EncodedLength(first.start, startWidth);
      EncodedLength(first.len, lenWidth);
      LittleEndianRoundTrip(first.start, startWidth);
      LittleEndianRoundTrip(first.len, lenWidth);
      ThreeParts(start, len, rest);
      TableReadsBack(entries[1..], startWidth, lenWidth);
      OneLess(|entries|, startWidth + lenWidth);
    } else {
      WholeRoom(0, startWidth + lenWidth);
    }
  }

  lemma {:induction false} EntryCount(table: seq<byte>, startWidth: nat, lenWidth: nat, count: nat)
    requires startWidth > 0 && lenWidth > 0 && |table| == count * (startWidth + lenWidth)
    ensures |EntriesIn(table, startWidth, lenWidth)| == count
  {
    var width := startWidth + lenWidth;
    if count > 0 {
      assert count * width == width + (count - 1) * width;
      EntryCount(table[width..], startWidth, lenWidth, count - 1);
    } else {
      assert count * width == 0;
    }
  }

  /** Reads the symbol table: it fails exactly if its length is wrong or some symbol lies outside the bytes. */
  method DecodeTable(bytes: string, table: seq<byte>, startWidth: nat, lenWidth: nat, count: nat)
    returns (r: Result<seq<InternedString>, FormatError>)
    requires startWidth > 0 && lenWidth > 0
    ensures r.Ok? <==> |table| == count * (startWidth + lenWidth) && Fits(bytes, EntriesIn(table, startWidth, lenWidth))
    ensures r.Ok? ==> r.value == EntriesIn(table, startWidth, lenWidth) && |r.value| == count
  {
    hide EncodeLE, Pow256, EntriesIn, Room;
    var width := startWidth + lenWidth;
    WholeRoom(count, width);
    if |table| != count * width {
      return Err(CountMismatch);
    }
    EntryCount(table, startWidth, lenWidth, count);
    ghost var all := EntriesIn(table, startWidth, lenWidth);
    var cursor := new BinaryCursor(table);
    var entries: seq<InternedString> := [];
    for i := 0 to count
      invariant fresh(cursor) && cursor.Valid() && cursor.bytes == table
      invariant |entries| == i && cursor.offset + Room(count - i, width) == |table| && Fits(bytes, entries)
      invariant all == entries + EntriesIn(table[cursor.offset..], startWidth, lenWidth)
    {
      OneLess(count - i, width);
      var entry := ReadEntry(cursor, startWidth, lenWidth);
      assert all[i] == entry;
      if entry.start + entry.len > |bytes| {
        return Err(SectionOutOfBounds);
      }
      entries := entries + [entry];
    }
    r := Ok(entries);
  }

  method ReadEntry(cursor: BinaryCursor, startWidth: nat, lenWidth: nat) returns (entry: InternedString)
    requires cursor.Valid() && startWidth > 0 && lenWidth > 0 && cursor.offset + startWidth + lenWidth <= |cursor.bytes|
    modifies cursor
    ensures cursor.Valid() && cursor.offset == old(cursor.offset) + startWidth + lenWidth
    ensures EntriesIn(cursor.bytes[old(cursor.offset)..], startWidth, lenWidth)
            == [entry] + EntriesIn(cursor.bytes[cursor.offset..], startWidth, lenWidth)
  {
    hide EncodeLE, Pow256, EntriesIn;
    var start := cursor.ReadValue(startWidth);
    var len := cursor.ReadValue(lenWidth);
    entry := InternedString(start.value, len.value);
    NextEntry(cursor.bytes, old(cursor.offset), startWidth, lenWidth, entry);
  }

  lemma NextEntry(table: seq<byte>, at: nat, startWidth: nat, lenWidth: nat, entry: InternedString)
    requires startWidth > 0 && lenWidth > 0 && at + startWidth + lenWidth <= |table|
    requires entry.start < Pow256(startWidth) && entry.len < Pow256(lenWidth)
    requires EncodeLE(entry.start, startWidth) == table[at..at + startWidth]
    requires EncodeLE(entry.len, lenWidth) == table[at + startWidth..at + startWidth + lenWidth]
    ensures EntriesIn(table[at..], startWidth, lenWidth)
            == [entry] + EntriesIn(table[at + startWidth + lenWidth..], startWidth, lenWidth)
  {
    hide EncodeLE, DecodeLE, Pow256;
    var rest := table[at..];
    LittleEndianRoundTrip(entry.start, startWidth);
    LittleEndianRoundTrip(entry.len, lenWidth);
    assert rest[..startWidth] == table[at..at + startWidth];
    assert rest[startWidth..startWidth + lenWidth] == table[at + startWidth..at + startWidth + lenWidth];
    assert rest[startWidth + lenWidth..] == table[at + startWidth + lenWidth..];
  }

  function LargestLen(entries: seq<InternedString>): nat {
    if entries == [] then 0
    else var rest := LargestLen(entries[1..]); if rest < entries[0].len then entries[0].len else rest
  }

  lemma {:induction false} LargestLenBounds(entries: seq<InternedString>, bytes: string)
    requires Fits(bytes, entries)
    ensures LargestLen(entries) <= |bytes| && forall i :: 0 <= i < |entries| ==> entries[i].len <= LargestLen(entries)
  {
    if entries != [] {
      LargestLenBounds(entries[1..], bytes);
    }
  }

  /** Writes the symbol table, in the narrowest widths that hold it. */
  method EncodeTable(bytes: string, entries: seq<InternedString>) returns (table: seq<byte>, startWidth: KeyWidth, lenWidth: KeyWidth)
    requires Fits(bytes, entries) && |bytes| < U32_LIMIT
    ensures table == TableBytes(entries, startWidth.ByteLen(), lenWidth.ByteLen())
    ensures SymbolsFit(entries, startWidth.ByteLen(), lenWidth.ByteLen())
  {
    hide EncodeLE, Pow256;
    startWidth, lenWidth := WidthForMax(|bytes|), WidthForMax(LargestLen(entries));
    LargestLenBounds(entries, bytes);
    forall i | 0 <= i < |entries| ensures entries[i].start < Pow256(startWidth.ByteLen()) && entries[i].len < Pow256(lenWidth.ByteLen()) {
      WidthFits(entries[i].start, |bytes|);
      WidthFits(entries[i].len, LargestLen(entries));
    }
    table := [];
    for i := 0 to |entries|
      invariant table + TableBytes(entries[i..], startWidth.ByteLen(), lenWidth.ByteLen())
                == TableBytes(entries, startWidth.ByteLen(), lenWidth.ByteLen())
    {
      assert entries[i..][1..] == entries[i + 1..];
      table := table + EncodeLE(entries[i].start, startWidth.ByteLen()) + EncodeLE(entries[i].len, lenWidth.ByteLen());
    }
  }

  // ---------------------------------------------------------------- the hash-ordered lookup

  /** Ids as stored count from one. The list must rise strictly in hash and then id. */
  ghost predicate LookupRises(hashes: seq<nat>, raw: seq<nat>) {
    && (forall k :: 0 <= k < |raw| ==> 0 < raw[k] <= |hashes|)
    && (forall k :: 0 <= k < |raw| - 1 ==> Precedes(hashes[raw[k] - 1], raw[k] - 1, hashes[raw[k + 1] - 1], raw[k + 1] - 1))
  }

  method CheckLookup(hashes: seq<nat>, raw: seq<nat>) returns (r: Result<(), FormatError>)
    ensures r.Ok? <==> LookupRises(hashes, raw)
  {
    for k := 0 to |raw|
      invariant forall j :: 0 <= j < k ==> 0 < raw[j] <= |hashes|
      invariant forall j :: 0 <= j < k - 1 ==> Precedes(hashes[raw[j] - 1], raw[j] - 1, hashes[raw[j + 1] - 1], raw[j + 1] - 1)
    {
      if raw[k] == 0 || raw[k] > |hashes| {
        return Err(SymbolOutOfBounds);
      }
      if k > 0 && !Precedes(hashes[raw[k - 1] - 1], raw[k - 1] - 1, hashes[raw[k] - 1], raw[k] - 1) {
        assert raw[k - 1 + 1] == raw[k];
        return Err(KeysNotSorted);
      }
    }
    r := Ok(());
  }

  // ---------------------------------------------------------------- whole sections

  function Entries(sections: SymbolSections): seq<InternedString> {
    EntriesIn(sections.table, sections.startWidth.ByteLen(), sections.lenWidth.ByteLen())
  }

  function Hashes(sections: SymbolSections): seq<nat> { ValuesIn(sections.hashes, HASH_BYTES) }

  /** Sections a fully validated load accepts. */
  ghost predicate SymbolsAcceptable(hash: Hasher, sections: SymbolSections) {
    && |sections.table| == sections.count * (sections.startWidth.ByteLen() + sections.lenWidth.ByteLen())
    && |sections.hashes| == sections.count * HASH_BYTES
    && |sections.lookup| == sections.count * sections.lookupWidth.ByteLen()
    && Fits(sections.bytes, Entries(sections))
    && LookupRises(Hashes(sections), ValuesIn(sections.lookup, sections.lookupWidth.ByteLen()))
    && HashesMatch(hash, NamesOf(sections.bytes, Entries(sections)), Hashes(sections))
    && NoRepeats(NamesOf(sections.bytes, Entries(sections)))
  }

  /** Loads symbols in full validation: the hash tables are rebuilt, the stored lookup only checked. */
  method DecodeSymbols(hash: Hasher, sections: SymbolSections) returns (r: Result<IdentifierInterner, FormatError>)
    ensures r.Ok? <==> SymbolsAcceptable(hash, sections)
    ensures r.Ok? ==> fresh(r.value) && r.value.Valid() && r.value.hash == hash
    ensures r.Ok? ==> r.value.Names() == NamesOf(sections.bytes, Entries(sections)) && |r.value.Names()| == sections.count
  {
    hide EntriesIn, ValuesIn, LookupRises, NoRepeats, TablesFind, HashesMatch;
    var startWidth, lenWidth := sections.startWidth.ByteLen(), sections.lenWidth.ByteLen();
    var entries := DecodeTable(sections.bytes, sections.table, startWidth, lenWidth, sections.count);
    if entries.Err? {
      return Err(entries.error);
    }
    var hashes := DecodeValues(sections.hashes, HASH_BYTES, sections.count);
    if hashes.Err? {
      return Err(hashes.error);
    }
    var lookup := DecodeValues(sections.lookup, sections.lookupWidth.ByteLen(), sections.count);
    if lookup.Err? {
      return Err(lookup.error);
    }
    var checked := CheckLookup(hashes.value, lookup.value);
    if checked.Err? {
      return Err(checked.error);
    }
    var index := IndexFullLookup(hash, sections.bytes, entries.value, hashes.value);
    if index.Err? {
      return Err(DuplicateKey);
    }
    var interner := new IdentifierInterner.Loaded(hash, sections.bytes, entries.value, index.value);
    r := Ok(interner);
  }

  /** Ids as they are stored. */
  function RawIds(ids: seq<SymbolId>): seq<nat> {
    seq(|ids|, i requires 0 <= i < |ids| => ids[i] + 1)
  }

  /** Hashes are 64-bit. */
  ghost predicate HashesAreU64(hash: Hasher) {
    forall value: string :: hash(value) < Pow256(HASH_BYTES)
  }

  method ListNames(interner: IdentifierInterner) returns (names: seq<string>)
    requires interner.Valid()
    ensures names == interner.Names()
  {
    names := [];
    for i := 0 to |interner.entries|
      invariant names == interner.Names()[..i]
    {
      names := names + [NameIn(interner.bytes, interner.entries[i])];
    }
  }

  /** Writes the symbol sections of an interner. Loading them gives the same symbols under the same ids. */
  method EncodeSymbols(interner: IdentifierInterner) returns (sections: SymbolSections)
    requires interner.Valid() && HashesAreU64(interner.hash)
    requires |interner.bytes| < U32_LIMIT && |interner.entries| < U32_LIMIT
    ensures SymbolsAcceptable(interner.hash, sections) && sections.count == |interner.Names()|
    ensures NamesOf(sections.bytes, Entries(sections)) == interner.Names() && sections.bytes == interner.bytes
  {
    hide TableBytes, EntriesIn, ValuesIn, FieldBytes, TablesFind, SortedFinds, LookupRises, HashesMatch, Pow256;
    var bytes, entries := interner.bytes, interner.entries;
    var table, startWidth, lenWidth := EncodeTable(bytes, entries);
    TableReadsBack(entries, startWidth.ByteLen(), lenWidth.ByteLen());
    var names := ListNames(interner);
    var hashes, lookup := EncodeAcceleration(interner.hash, names);
    var width := WidthForMax(|entries|);
    LookupIsStorable(interner.hash, names, hashes, lookup, width);
    sections := SymbolSections(bytes, table, startWidth, lenWidth, FieldBytes(hashes, HASH_BYTES),
                               FieldBytes(RawIds(lookup), width.ByteLen()), width, |entries|);
  }

  lemma LookupIsStorable(hash: Hasher, names: seq<string>, hashes: seq<nat>, lookup: seq<SymbolId>, width: KeyWidth)
    requires SortedFinds(hash, names, hashes, lookup) && |lookup| == |names| < U32_LIMIT && HashesAreU64(hash)
    requires width == WidthForMax(|names|)
    ensures |FieldBytes(hashes, HASH_BYTES)| == |names| * HASH_BYTES && ValuesIn(FieldBytes(hashes, HASH_BYTES), HASH_BYTES) == hashes
    ensures |FieldBytes(RawIds(lookup), width.ByteLen())| == |names| * width.ByteLen()
    ensures ValuesIn(FieldBytes(RawIds(lookup), width.ByteLen()), width.ByteLen()) == RawIds(lookup)
    ensures LookupRises(hashes, RawIds(lookup)) && HashesMatch(hash, names, hashes)
  {
    hide FieldBytes, ValuesIn, Pow256;
    FieldBytesLength(hashes, HASH_BYTES);
    FieldBytesLength(RawIds(lookup), width.ByteLen());
    forall i | 0 <= i < |lookup| ensures RawIds(lookup)[i] < Pow256(width.ByteLen()) {
      WidthFits(RawIds(lookup)[i], |names|);
    }
    ValuesReadBack(hashes, HASH_BYTES);
    ValuesReadBack(RawIds(lookup), width.ByteLen());
  }
}
