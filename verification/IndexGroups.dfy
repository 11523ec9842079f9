/** One index group on disk: keys of a chosen width, singleton lists stored beside their key, longer lists
    as ranges, and the merge that restores key order. */
module IndexGroups {
  import opened Vocabulary
  import opened SnapshotBytes
  import opened PostingCodec

  datatype IndexKind =
    | Resource
    | ResourceObject
    | ResourceTypeRelation
    | ResourceType
    | Subject
    | SubjectTypeRelation
    | SubjectType
  {
    function FieldCount(): nat {
      match this
      case Resource => 3
      case Subject => 3
      case ResourceObject => 2
      case ResourceTypeRelation => 2
      case SubjectTypeRelation => 2
      case _ => 1
    }
  }

  datatype DiskKey = DiskKey(first: nat, second: nat, third: nat)

  predicate KeyBelow(left: DiskKey, right: DiskKey) {
    left.first < right.first
    || (left.first == right.first && (left.second < right.second || (left.second == right.second && left.third < right.third)))
  }

  /** Only the fields its kind has may be set. */
  predicate KeyFits(kind: IndexKind, key: DiskKey, limit: nat) {
    && key.first < limit && key.second < limit && key.third < limit
    && (kind.FieldCount() < 2 ==> key.second == 0)
    && (kind.FieldCount() < 3 ==> key.third == 0)
  }

  datatype DiskEntry = DiskEntry(key: DiskKey, range: DiskRange)

  ghost predicate KeysAscend(entries: seq<DiskEntry>) {
    forall i, j :: 0 <= i < j < |entries| ==> KeyBelow(entries[i].key, entries[j].key)
  }

  // ---------------------------------------------------------------- keys and singleton entries

  function KeyBytes(kind: IndexKind, width: nat, key: DiskKey): seq<byte> {
    EncodeLE(key.first, width) +
    (if kind.FieldCount() >= 2 then EncodeLE(key.second, width) else []) +
    (if kind.FieldCount() >= 3 then EncodeLE(key.third, width) else [])
  }

  /** An entry as stored: its key, and for a singleton its row id. */
  function EntryBytes(kind: IndexKind, width: nat, singleton: bool, entry: DiskEntry): seq<byte> {
    KeyBytes(kind, width, entry.key) + if singleton then EncodeLE(entry.range.firstRowId, 4) else []
  }

  function EntriesBytes(kind: IndexKind, width: nat, singleton: bool, entries: seq<DiskEntry>): seq<byte> {
    if entries == [] then []
    else EntryBytes(kind, width, singleton, entries[0]) + EntriesBytes(kind, width, singleton, entries[1..])
  }

  function EntryLength(kind: IndexKind, width: nat, singleton: bool): nat {
    kind.FieldCount() * width + if singleton then 4 else 0
  }

  lemma EntryBytesLength(kind: IndexKind, width: nat, singleton: bool, entry: DiskEntry)
    ensures |EntryBytes(kind, width, singleton, entry)| == EntryLength(kind, width, singleton)
  {
    EncodedLength(entry.key.first, width);
    EncodedLength(entry.key.second, width);
    EncodedLength(entry.key.third, width);
    EncodedLength(entry.range.firstRowId, 4);
    assert 2 * width == width + width && 3 * width == width + width + width;
  }

  /** The bytes of an entry determine it, as far as they hold it. */
  lemma EntryBytesInjective(kind: IndexKind, width: nat, singleton: bool, left: DiskEntry, right: DiskEntry)
    requires KeyFits(kind, left.key, Pow256(width)) && KeyFits(kind, right.key, Pow256(width))
    requires singleton ==> left.range.firstRowId < Pow256(4) && right.range.firstRowId < Pow256(4)
    requires EntryBytes(kind, width, singleton, left) == EntryBytes(kind, width, singleton, right)
    ensures left.key == right.key && (singleton ==> left.range.firstRowId == right.range.firstRowId)
  {
    FieldsOf(kind, width, singleton, left);
    FieldsOf(kind, width, singleton, right);
  }

  /** Where the fields of an entry lie. */
  lemma FieldsOf(kind: IndexKind, width: nat, singleton: bool, entry: DiskEntry)
    requires KeyFits(kind, entry.key, Pow256(width)) && (singleton ==> entry.range.firstRowId < Pow256(4))
    ensures var bytes := EntryBytes(kind, width, singleton, entry);
            var fields := kind.FieldCount();
            && |bytes| == EntryLength(kind, width, singleton) && EntryLength(kind, width, singleton) >= width
            && DecodeLE(bytes[..width]) == entry.key.first
            && (fields >= 2 ==> 2 * width <= |bytes| && DecodeLE(bytes[width..2 * width]) == entry.key.second)
            && (fields >= 3 ==> 3 * width <= |bytes| && DecodeLE(bytes[2 * width..3 * width]) == entry.key.third)
            && (singleton ==> |bytes| >= 4 && DecodeLE(bytes[|bytes| - 4..]) == entry.range.firstRowId)
  {
    hide EncodeLE, DecodeLE;
    var bytes := EntryBytes(kind, width, singleton, entry);
    EntryBytesLength(kind, width, singleton, entry);
    EncodedLength(entry.key.first, width);
    EncodedLength(entry.key.second, width);
    EncodedLength(entry.key.third, width);
    EncodedLength(entry.range.firstRowId, 4);
    LittleEndianRoundTrip(entry.key.first, width);
    LittleEndianRoundTrip(entry.key.second, width);
    LittleEndianRoundTrip(entry.key.third, width);
    assert 2 * width == width + width && 3 * width == width + width + width;
    assert bytes[..width] == EncodeLE(entry.key.first, width);
    assert kind.FieldCount() >= 2 ==> bytes[width..2 * width] == EncodeLE(entry.key.second, width);
    assert kind.FieldCount() >= 3 ==> bytes[2 * width..3 * width] == EncodeLE(entry.key.third, width);
    if singleton {
      LittleEndianRoundTrip(entry.range.firstRowId, 4);
      assert bytes[|bytes| - 4..] == EncodeLE(entry.range.firstRowId, 4);
    }
  }

  // ---------------------------------------------------------------- reading entries back

  ghost predicate EntriesFit(kind: IndexKind, width: nat, singleton: bool, entries: seq<DiskEntry>) {
    forall i :: 0 <= i < |entries| ==> KeyFits(kind, entries[i].key, Pow256(width)) && (singleton ==> entries[i].range.firstRowId < Pow256(4))
  }

  /** Where the range of an entry comes from: made up for a singleton, given for a longer list. */
  ghost predicate RangesFrom(singleton: bool, entries: seq<DiskEntry>, ranges: seq<DiskRange>) {
    forall i :: 0 <= i < |entries| ==>
      if singleton then entries[i].range == DiskRange(entries[i].range.firstRowId, 0, 0)
      else i < |ranges| && entries[i].range == ranges[i]
  }

  lemma {:induction false} EntriesBytesAppend(kind: IndexKind, width: nat, singleton: bool, entries: seq<DiskEntry>, last: DiskEntry)
    ensures EntriesBytes(kind, width, singleton, entries + [last])
            == EntriesBytes(kind, width, singleton, entries) + EntryBytes(kind, width, singleton, last)
  {
    hide EntryBytes;
    if entries == [] {
      assert entries + [last] == [last];
      assert EntriesBytes(kind, width, singleton, [last]) == EntryBytes(kind, width, singleton, last) + EntriesBytes(kind, width, singleton, []);
    } else {
      EntriesBytesAppend(kind, width, singleton, entries[1..], last);
      assert (entries + [last])[1..] == entries[1..] + [last];
    }
  }

  lemma {:induction false} EntriesBytesLength(kind: IndexKind, width: nat, singleton: bool, entries: seq<DiskEntry>)
    ensures |EntriesBytes(kind, width, singleton, entries)| == |entries| * EntryLength(kind, width, singleton)
  {
    if entries != [] {
      EntryBytesLength(kind, width, singleton, entries[0]);
      EntriesBytesLength(kind, width, singleton, entries[1..]);
      OneMore(|entries| - 1, EntryLength(kind, width, singleton));
    }
  }

  lemma OneMore(count: nat, length: nat)
    ensures (count + 1) * length == count * length + length
  {
  }

  /** Two lists of entries with the same bytes have the same keys and row ids. */
  lemma {:induction false} EntriesBytesInjective(kind: IndexKind, width: nat, singleton: bool, left: seq<DiskEntry>, right: seq<DiskEntry>)
    requires |left| == |right| && EntriesFit(kind, width, singleton, left) && EntriesFit(kind, width, singleton, right)
    requires EntriesBytes(kind, width, singleton, left) == EntriesBytes(kind, width, singleton, right)
    ensures forall i :: 0 <= i < |left| ==>
      left[i].key == right[i].key && (singleton ==> left[i].range.firstRowId == right[i].range.firstRowId)
  {
    hide EntryBytes;
    if left != [] {
      EntryBytesLength(kind, width, singleton, left[0]);
      EntryBytesLength(kind, width, singleton, right[0]);
      var first, second := EntryBytes(kind, width, singleton, left[0]), EntryBytes(kind, width, singleton, right[0]);
      var all := EntriesBytes(kind, width, singleton, left);
      assert all[..|first|] == first && all[..|second|] == second;
      assert all[|first|..] == EntriesBytes(kind, width, singleton, left[1..]);
      assert all[|second|..] == EntriesBytes(kind, width, singleton, right[1..]);
      EntryBytesInjective(kind, width, singleton, left[0], right[0]);
      EntriesBytesInjective(kind, width, singleton, left[1..], right[1..]);
      forall i | 0 <= i < |left|
        ensures left[i].key == right[i].key && (singleton ==> left[i].range.firstRowId == right[i].range.firstRowId)
      {
        if i > 0 {
          assert left[i] == left[1..][i - 1] && right[i] == right[1..][i - 1];
        }
      }
    }
  }

  /** Adjacent keys in order are keys in order. */
  method ValidateSorted(entries: seq<DiskEntry>) returns (r: Result<(), FormatError>)
    ensures r.Ok? <==> KeysAscend(entries)
    ensures r.Err? ==> r.error == KeysNotSorted
  {
    if entries == [] {
      return Ok(());
    }
    for i := 1 to |entries|
      invariant KeysAscend(entries[..i])
    {
      if !KeyBelow(entries[i - 1].key, entries[i].key) {
        return Err(KeysNotSorted);
      }
      forall j | 0 <= j < i ensures KeyBelow(entries[j].key, entries[i].key) {
        if j < i - 1 {
          assert KeyBelow(entries[..i][j].key, entries[..i][i - 1].key);
        }
      }
    }
    assert entries[..|entries|] == entries;
    r := Ok(());
  }

  lemma KeyLengths(kind: IndexKind, width: nat)
    ensures kind.FieldCount() == 1 ==> kind.FieldCount() * width == width
    ensures kind.FieldCount() == 2 ==> kind.FieldCount() * width == width + width
    ensures kind.FieldCount() == 3 ==> kind.FieldCount() * width == width + width + width
    ensures 1 <= kind.FieldCount() <= 3
  {
  }

  method DecodeKey(kind: IndexKind, width: nat, cursor: BinaryCursor) returns (r: Result<DiskKey, FormatError>)
    requires cursor.Valid()
    modifies cursor
    ensures cursor.Valid() && (r.Ok? <==> old(cursor.offset) + kind.FieldCount() * width <= |cursor.bytes|)
    ensures r.Ok? ==> KeyFits(kind, r.value, Pow256(width)) && cursor.offset == old(cursor.offset) + kind.FieldCount() * width
    ensures r.Ok? ==> KeyBytes(kind, width, r.value) == cursor.bytes[old(cursor.offset)..cursor.offset]
  {
    hide EncodeLE, Pow256;
    KeyLengths(kind, width);
    var first :- cursor.ReadValue(width);
    var second, third := 0, 0;
    if kind.FieldCount() >= 2 {
      second :- cursor.ReadValue(width);
    }
    if kind.FieldCount() >= 3 {
      third :- cursor.ReadValue(width);
    }
    r := Ok(DiskKey(first, second, third));
  }

  method DecodeEntry(kind: IndexKind, width: nat, singleton: bool, cursor: BinaryCursor, given: DiskRange) returns (r: Result<DiskEntry, FormatError>)
    requires cursor.Valid()
    modifies cursor
    ensures cursor.Valid() && (r.Ok? <==> old(cursor.offset) + EntryLength(kind, width, singleton) <= |cursor.bytes|)
    ensures r.Ok? ==> cursor.offset == old(cursor.offset) + EntryLength(kind, width, singleton)
    ensures r.Ok? ==> KeyFits(kind, r.value.key, Pow256(width)) && (singleton ==> r.value.range.firstRowId < Pow256(4))
    ensures r.Ok? ==> r.value.range == if singleton then DiskRange(r.value.range.firstRowId, 0, 0) else given
    ensures r.Ok? ==> EntryBytes(kind, width, singleton, r.value) == cursor.bytes[old(cursor.offset)..cursor.offset]
  {
    hide EncodeLE, KeyBytes;
    var key :- DecodeKey(kind, width, cursor);
    if !singleton {
      return Ok(DiskEntry(key, given));
    }
    var rowId :- cursor.ReadValue(4);
    r := Ok(DiskEntry(key, DiskRange(rowId, 0, 0)));
  }

  /** The bytes begin with these entries, whose keys are in order. */
  ghost predicate StoredAs(kind: IndexKind, width: nat, singleton: bool, bytes: seq<byte>, count: nat, entries: seq<DiskEntry>) {
    && |entries| == count && EntriesFit(kind, width, singleton, entries)
    && EntriesBytes(kind, width, singleton, entries) <= bytes && KeysAscend(entries)
  }

  /** Reads `count` entries of one sort: those the bytes begin with, if there are such entries with their
      keys in order. */
  method DecodeEntries(kind: IndexKind, width: nat, singleton: bool, bytes: seq<byte>, count: nat, ranges: seq<DiskRange>)
    returns (r: Result<seq<DiskEntry>, FormatError>)
    requires !singleton ==> |ranges| == count
    ensures r.Ok? ==> StoredAs(kind, width, singleton, bytes, count, r.value) && RangesFrom(singleton, r.value, ranges)
    ensures r.Err? ==> forall entries :: !StoredAs(kind, width, singleton, bytes, count, entries)
  {
    hide EncodeLE, KeyBytes, EntryBytes, KeyFits, KeyBelow, EntryLength, EntriesBytes, EntriesFit, RangesFrom;
    NoEntries(kind, width, singleton, ranges);
    var cursor := new BinaryCursor(bytes);
    var entries: seq<DiskEntry> := [];
    for i := 0 to count
      invariant cursor.Valid() && cursor.bytes == bytes && |entries| == i
      invariant EntriesFit(kind, width, singleton, entries) && RangesFrom(singleton, entries, ranges)
      invariant EntriesBytes(kind, width, singleton, entries) == bytes[..cursor.offset]
    {
      ghost var start := cursor.offset;
      var entry := DecodeEntry(kind, width, singleton, cursor, if singleton then DiskRange(0, 0, 0) else ranges[i]);
      if entry.Err? {
        TooShort(kind, width, singleton, bytes, start, entries, count);
        return Err(entry.error);
      }
      EntriesBytesAppend(kind, width, singleton, entries, entry.value);
      EntriesGrow(kind, width, singleton, entries, entry.value, ranges);
      assert bytes[..cursor.offset] == bytes[..start] + bytes[start..cursor.offset];
      entries := entries + [entry.value];
    }
    var sorted := ValidateSorted(entries);
    if sorted.Err? {
      OnlyTheseEntries(kind, width, singleton, bytes, cursor.offset, entries);
      return Err(sorted.error);
    }
    r := Ok(entries);
  }

  lemma NoEntries(kind: IndexKind, width: nat, singleton: bool, ranges: seq<DiskRange>)
    ensures EntriesFit(kind, width, singleton, []) && RangesFrom(singleton, [], ranges) && EntriesBytes(kind, width, singleton, []) == []
  {
  }

  lemma EntriesGrow(kind: IndexKind, width: nat, singleton: bool, entries: seq<DiskEntry>, next: DiskEntry, ranges: seq<DiskRange>)
    requires EntriesFit(kind, width, singleton, entries) && RangesFrom(singleton, entries, ranges)
    requires KeyFits(kind, next.key, Pow256(width)) && (singleton ==> next.range.firstRowId < Pow256(4))
    requires singleton ==> next.range == DiskRange(next.range.firstRowId, 0, 0)
    requires !singleton ==> |entries| < |ranges| && next.range == ranges[|entries|]
    ensures EntriesFit(kind, width, singleton, entries + [next]) && RangesFrom(singleton, entries + [next], ranges)
  {
    hide KeyFits, Pow256;
  }

  lemma TooShort(kind: IndexKind, width: nat, singleton: bool, bytes: seq<byte>, start: nat, entries: seq<DiskEntry>, count: nat)
    requires |entries| < count && start <= |bytes| && EntriesBytes(kind, width, singleton, entries) == bytes[..start]
    requires start + EntryLength(kind, width, singleton) > |bytes|
    ensures forall others :: !StoredAs(kind, width, singleton, bytes, count, others)
  {
    EntriesBytesLength(kind, width, singleton, entries);
    forall others ensures !StoredAs(kind, width, singleton, bytes, count, others) {
      EntriesBytesLength(kind, width, singleton, others);
      AtLeast(|entries|, count, EntryLength(kind, width, singleton));
    }
  }

  lemma {:induction false} AtLeast(i: nat, count: nat, length: nat)
    requires i < count
    ensures i * length + length <= count * length
    decreases count - i
  {
    OneMore(i, length);
    if i + 1 < count {
      AtLeast(i + 1, count, length);
    }
  }

  lemma OnlyTheseEntries(kind: IndexKind, width: nat, singleton: bool, bytes: seq<byte>, end: nat, entries: seq<DiskEntry>)
    requires end <= |bytes| && EntriesBytes(kind, width, singleton, entries) == bytes[..end] && EntriesFit(kind, width, singleton, entries)
    requires !KeysAscend(entries)
    ensures forall others :: !StoredAs(kind, width, singleton, bytes, |entries|, others)
  {
    hide EntriesBytes;
    forall others ensures !StoredAs(kind, width, singleton, bytes, |entries|, others) {
      if |others| == |entries| && EntriesFit(kind, width, singleton, others) && EntriesBytes(kind, width, singleton, others) <= bytes {
        EntriesBytesLength(kind, width, singleton, entries);
        EntriesBytesLength(kind, width, singleton, others);
        assert EntriesBytes(kind, width, singleton, others) == bytes[..end];
        EntriesBytesInjective(kind, width, singleton, entries, others);
      }
    }
  }

  // ---------------------------------------------------------------- merging

  ghost predicate KeysDiffer(left: seq<DiskEntry>, right: seq<DiskEntry>) {
    forall i, j :: 0 <= i < |left| && 0 <= j < |right| ==> left[i].key != right[j].key
  }

  /** `merged` holds the entries of both lists, in key order. */
  ghost predicate Merges(left: seq<DiskEntry>, right: seq<DiskEntry>, merged: seq<DiskEntry>) {
    KeysAscend(merged) && forall entry :: entry in merged <==> entry in left || entry in right
  }

  /** Every key of `entries` comes before every key of `rest`. */
  ghost predicate AllBelow(entries: seq<DiskEntry>, rest: seq<DiskEntry>) {
    forall i, j :: 0 <= i < |entries| && 0 <= j < |rest| ==> KeyBelow(entries[i].key, rest[j].key)
  }

  /** Merges two lists in key order; they must not share a key. */
  method MergeEntries(left: seq<DiskEntry>, right: seq<DiskEntry>) returns (r: Result<seq<DiskEntry>, FormatError>)
    requires KeysAscend(left) && KeysAscend(right)
    ensures r.Ok? <==> KeysDiffer(left, right)
    ensures r.Ok? ==> Merges(left, right, r.value)
  {
    hide KeyBelow;
    var i, j := 0, 0;
    var merged: seq<DiskEntry> := [];
    while i < |left| || j < |right|
      invariant i <= |left| && j <= |right|
      invariant Merges(left[..i], right[..j], merged)
      invariant AllBelow(merged, left[i..]) && AllBelow(merged, right[j..])
      invariant KeysDiffer(left[..i], right) && KeysDiffer(left, right[..j])
      decreases |left| - i + |right| - j
    {
      if i < |left| && j < |right| && left[i].key == right[j].key {
        return Err(DuplicateKey);
      }
      if j == |right| || (i < |left| && KeyBelow(left[i].key, right[j].key)) {
        TakeFirst(left, i, right, j, merged);
        merged := merged + [left[i]];
        i := i + 1;
      } else {
        if i < |left| {
          KeysCompare(left[i].key, right[j].key);
        }
        TakeFirst(right, j, left, i, merged);
        merged := merged + [right[j]];
        j := j + 1;
      }
    }
    assert left[..i] == left && right[..j] == right;
    var checked := ValidateSorted(merged);
    assert checked.Ok?;
    r := Ok(merged);
  }

  lemma KeysCompare(left: DiskKey, right: DiskKey)
    ensures left == right || KeyBelow(left, right) || KeyBelow(right, left)
    ensures KeyBelow(left, right) ==> left != right
  {
  }

  lemma KeyBelowIsTransitive(first: DiskKey, second: DiskKey, third: DiskKey)
    requires KeyBelow(first, second) && KeyBelow(second, third)
    ensures KeyBelow(first, third)
  {
  }

  /** Taking the smaller head keeps what the merge relies on. */
  lemma TakeFirst(taken: seq<DiskEntry>, i: nat, other: seq<DiskEntry>, j: nat, merged: seq<DiskEntry>)
    requires KeysAscend(taken) && KeysAscend(other) && i < |taken| && j <= |other|
    requires Merges(taken[..i], other[..j], merged) || Merges(other[..j], taken[..i], merged)
    requires AllBelow(merged, taken[i..]) && AllBelow(merged, other[j..])
    requires j < |other| ==> KeyBelow(taken[i].key, other[j].key)
    requires KeysDiffer(taken, other[..j]) || KeysDiffer(other[..j], taken)
    ensures Merges(taken[..i + 1], other[..j], merged + [taken[i]]) && Merges(other[..j], taken[..i + 1], merged + [taken[i]])
    ensures AllBelow(merged + [taken[i]], taken[i + 1..]) && AllBelow(merged + [taken[i]], other[j..])
    ensures forall k :: 0 <= k < |other| ==> other[k].key != taken[i].key
  {
    hide KeyBelow;
    var next := merged + [taken[i]];
    assert taken[..i + 1] == taken[..i] + [taken[i]];
    forall k | 0 <= k < |merged| ensures KeyBelow(merged[k].key, taken[i].key) {
      assert taken[i..][0] == taken[i];
    }
    forall k | j <= k < |other| ensures KeyBelow(taken[i].key, other[k].key) {
      if k > j {
        KeyBelowIsTransitive(taken[i].key, other[j].key, other[k].key);
      }
    }
    var rest := taken[i + 1..];
    forall k, m | 0 <= k < |next| && 0 <= m < |rest| ensures KeyBelow(next[k].key, rest[m].key) {
      assert rest[m] == taken[i..][m + 1] == taken[i + 1 + m];
    }
    forall k, m | 0 <= k < |next| && 0 <= m < |other[j..]| ensures KeyBelow(next[k].key, other[j..][m].key) {
      assert other[j..][m] == other[j + m];
    }
    forall k | 0 <= k < |other| ensures other[k].key != taken[i].key {
      if k >= j {
        KeysCompare(taken[i].key, other[k].key);
      } else {
        assert other[..j][k] == other[k];
      }
    }
  }

  /** There is only one way to put entries in key order. */
  lemma {:induction false} OrderIsUnique(left: seq<DiskEntry>, right: seq<DiskEntry>)
    requires KeysAscend(left) && KeysAscend(right)
    requires forall entry :: entry in left <==> entry in right
    ensures left == right
  {
    if left == [] {
      assert forall i :: 0 <= i < |right| ==> right[i] in right;
    } else {
      assert left[0] in right && right[0] in left;
      HeadIsLeast(left, right);
      HeadIsLeast(right, left);
      KeysCompare(left[0].key, right[0].key);
      TailMembers(left);
      TailMembers(right);
      OrderIsUnique(left[1..], right[1..]);
      assert left == [left[0]] + left[1..] && right == [right[0]] + right[1..];
    }
  }

  lemma HeadIsLeast(left: seq<DiskEntry>, right: seq<DiskEntry>)
    requires left != [] && right != [] && KeysAscend(right) && left[0] in right
    ensures left[0] == right[0] || KeyBelow(right[0].key, left[0].key)
  {
    var i :| 0 <= i < |right| && right[i] == left[0];
  }

  lemma TailMembers(entries: seq<DiskEntry>)
    requires entries != [] && KeysAscend(entries)
    ensures forall entry :: entry in entries[1..] <==> entry in entries && entry != entries[0]
  {
    forall entry | entry in entries[1..] ensures entry in entries && entry != entries[0] {
      var i :| 0 <= i < |entries[1..]| && entries[1..][i] == entry;
      KeysCompare(entries[0].key, entries[i + 1].key);
    }
    assert entries == [entries[0]] + entries[1..];
  }

  // ---------------------------------------------------------------- whole groups

  /** A key and the rows that have it. */
  datatype Posting = Posting(key: DiskKey, rowIds: seq<nat>)

  ghost predicate PostingsAscend(group: seq<Posting>) {
    forall i, j :: 0 <= i < j < |group| ==> KeyBelow(group[i].key, group[j].key)
  }

  /** A group ready to be written: keys in order, each with a valid list. */
  ghost predicate GroupValid(kind: IndexKind, group: seq<Posting>, rowCount: nat) {
    && PostingsAscend(group)
    && forall i :: 0 <= i < |group| ==> KeyFits(kind, group[i].key, U32_LIMIT) && ListValid(group[i].rowIds, rowCount)
  }

  /** Where the singletons of a section end. */
  function SingletonBytes(kind: IndexKind, width: nat, keyCount: nat, longerCount: nat): nat
    requires longerCount <= keyCount
  {
    (keyCount - longerCount) * EntryLength(kind, width, true)
  }

  /** The entries stored in a group's section: first the singletons, then the longer lists with their
      ranges, each sort in key order. */
  ghost predicate GroupStored(kind: IndexKind, width: nat, bytes: seq<byte>, keyCount: nat, ranges: seq<DiskRange>,
                              singletons: seq<DiskEntry>, multis: seq<DiskEntry>)
    requires |ranges| <= keyCount
  {
    var split := SingletonBytes(kind, width, keyCount, |ranges|);
    && split <= |bytes|
    && StoredAs(kind, width, true, bytes[..split], keyCount - |ranges|, singletons) && RangesFrom(true, singletons, ranges)
    && StoredAs(kind, width, false, bytes[split..], |ranges|, multis) && RangesFrom(false, multis, ranges)
    && KeysDiffer(singletons, multis)
  }

  /** Reads a group: it succeeds exactly on bytes that store one, and returns its entries in key order. */
  method DecodeGroup(kind: IndexKind, width: nat, bytes: seq<byte>, keyCount: nat, ranges: seq<DiskRange>)
    returns (r: Result<seq<DiskEntry>, FormatError>, ghost singletons: seq<DiskEntry>, ghost multis: seq<DiskEntry>)
    ensures r.Ok? ==> |ranges| <= keyCount && GroupStored(kind, width, bytes, keyCount, ranges, singletons, multis)
    ensures r.Ok? ==> Merges(singletons, multis, r.value)
    ensures r.Err? && |ranges| <= keyCount ==> forall left, right :: !GroupStored(kind, width, bytes, keyCount, ranges, left, right)
  {
    hide StoredAs, RangesFrom, SingletonBytes, KeysDiffer, Merges;
    singletons, multis := [], [];
    if |ranges| > keyCount {
      return Err(CountMismatch), singletons, multis;
    }
    var split := SingletonBytes(kind, width, keyCount, |ranges|);
    if split > |bytes| {
      return Err(SectionOutOfBounds), singletons, multis;
    }
    var left := DecodeEntries(kind, width, true, bytes[..split], keyCount - |ranges|, ranges);
    if left.Err? {
      return Err(left.error), singletons, multis;
    }
    var right := DecodeEntries(kind, width, false, bytes[split..], |ranges|, ranges);
    if right.Err? {
      return Err(right.error), singletons, multis;
    }
    singletons, multis := left.value, right.value;
    AscendIfStored(kind, width, true, bytes[..split], keyCount - |ranges|, left.value);
    AscendIfStored(kind, width, false, bytes[split..], |ranges|, right.value);
    r := MergeEntries(left.value, right.value);
    if r.Err? {
      forall others, rest ensures !GroupStored(kind, width, bytes, keyCount, ranges, others, rest) {
        if GroupStored(kind, width, bytes, keyCount, ranges, others, rest) {
          StoredIsUnique(kind, width, true, bytes[..split], keyCount - |ranges|, ranges, left.value, others);
          StoredIsUnique(kind, width, false, bytes[split..], |ranges|, ranges, right.value, rest);
        }
      }
    }
  }

  lemma AscendIfStored(kind: IndexKind, width: nat, singleton: bool, bytes: seq<byte>, count: nat, entries: seq<DiskEntry>)
    requires StoredAs(kind, width, singleton, bytes, count, entries)
    ensures KeysAscend(entries)
  {
  }

  lemma StoredIsUnique(kind: IndexKind, width: nat, singleton: bool, bytes: seq<byte>, count: nat, ranges: seq<DiskRange>,
                       left: seq<DiskEntry>, right: seq<DiskEntry>)
    requires StoredAs(kind, width, singleton, bytes, count, left) && RangesFrom(singleton, left, ranges)
    requires StoredAs(kind, width, singleton, bytes, count, right) && RangesFrom(singleton, right, ranges)
    ensures left == right
  {
    EntriesBytesLength(kind, width, singleton, left);
    EntriesBytesLength(kind, width, singleton, right);
    var end := count * EntryLength(kind, width, singleton);
    assert EntriesBytes(kind, width, singleton, left) == bytes[..end] == EntriesBytes(kind, width, singleton, right);
    EntriesBytesInjective(kind, width, singleton, left, right);
  }
}
