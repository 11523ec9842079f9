/** Writing index groups, and why reading one back gives it again. */
module GroupEncoding {
  import opened Vocabulary
  import opened SnapshotBytes
  import opened PostingCodec
  import opened IndexGroups

  ghost predicate ListsValid(group: seq<Posting>, rowCount: nat) {
    forall i :: 0 <= i < |group| ==> ListValid(group[i].rowIds, rowCount)
  }

  ghost predicate KeysFit(kind: IndexKind, group: seq<Posting>, limit: nat) {
    forall i :: 0 <= i < |group| ==> KeyFits(kind, group[i].key, limit)
  }

  function Deltas(ids: seq<nat>): seq<byte>
    requires ids != [] && Increasing(ids[0], ids[1..])
  {
    DeltaBytes(ids[0], ids[1..])
  }

  ghost function PostingBytes(group: seq<Posting>, rowCount: nat): seq<byte>
    requires ListsValid(group, rowCount)
  {
    if group == [] then [] else Deltas(group[0].rowIds) + PostingBytes(group[1..], rowCount)
  }

  /** The entry of one posting whose deltas start at `offset`. */
  function EntryOf(posting: Posting, offset: nat): DiskEntry
    requires posting.rowIds != [] && Increasing(posting.rowIds[0], posting.rowIds[1..])
  {
    DiskEntry(posting.key,
              if |posting.rowIds| == 1 then DiskRange(posting.rowIds[0], 0, 0)
              else DiskRange(posting.rowIds[0], offset, |Deltas(posting.rowIds)|))
  }

  /** The entries of a group in key order, its deltas starting at `offset`. */
  ghost function EntriesOf(group: seq<Posting>, offset: nat, rowCount: nat): seq<DiskEntry>
    requires ListsValid(group, rowCount)
  {
    if group == [] then []
    else [EntryOf(group[0], offset)] + EntriesOf(group[1..], offset + |Deltas(group[0].rowIds)|, rowCount)
  }

  predicate IsSingleton(entry: DiskEntry) { entry.range.overflowLen == 0 }

  predicate IsLonger(entry: DiskEntry) { entry.range.overflowLen != 0 }

  lemma SingletonHasNoDeltas(ids: seq<nat>)
    requires ids != [] && Increasing(ids[0], ids[1..])
    ensures Deltas(ids) == [] <==> |ids| == 1
  {
    if |ids| > 1 {
      VarintIsNonempty(ids[1..][0] - ids[0]);
    }
  }

  lemma {:induction false} PostingBytesAppend(group: seq<Posting>, last: Posting, rowCount: nat)
    requires ListsValid(group + [last], rowCount)
    ensures ListsValid(group, rowCount) && ListValid(last.rowIds, rowCount)
    ensures PostingBytes(group + [last], rowCount) == PostingBytes(group, rowCount) + Deltas(last.rowIds)
  {
    assert (group + [last])[|group|] == last;
    assert forall i :: 0 <= i < |group| ==> (group + [last])[i] == group[i];
    if group == [] {
      assert group + [last] == [last];
      assert PostingBytes([last], rowCount) == Deltas(last.rowIds) + PostingBytes([], rowCount);
    } else {
      assert (group + [last])[1..] == group[1..] + [last];
      PostingBytesAppend(group[1..], last, rowCount);
    }
  }

  lemma {:induction false} EntriesOfAppend(group: seq<Posting>, last: Posting, offset: nat, rowCount: nat)
    requires ListsValid(group + [last], rowCount) && ListsValid(group, rowCount) && ListValid(last.rowIds, rowCount)
    ensures EntriesOf(group + [last], offset, rowCount)
            == EntriesOf(group, offset, rowCount) + [EntryOf(last, offset + |PostingBytes(group, rowCount)|)]
  {
    hide DeltaBytes;
    if group == [] {
      assert group + [last] == [last];
      assert EntriesOf([last], offset, rowCount) == [EntryOf(last, offset)] + EntriesOf([], offset + |Deltas(last.rowIds)|, rowCount);
    } else {
      assert (group + [last])[1..] == group[1..] + [last];
      EntriesOfAppend(group[1..], last, offset + |Deltas(group[0].rowIds)|, rowCount);
    }
  }

  /** The entries have the group's keys, in order, and know which lists are singletons. */
  lemma {:induction false} EntriesOfShape(group: seq<Posting>, offset: nat, rowCount: nat)
    requires ListsValid(group, rowCount)
    ensures var entries := EntriesOf(group, offset, rowCount);
            && |entries| == |group|
            && forall i :: 0 <= i < |group| ==>
                 && entries[i].key == group[i].key && entries[i].range.firstRowId == group[i].rowIds[0]
                 && (IsSingleton(entries[i]) ==> entries[i].range == DiskRange(group[i].rowIds[0], 0, 0))
  {
    if group != [] {
      SingletonHasNoDeltas(group[0].rowIds);
      EntriesOfShape(group[1..], offset + |Deltas(group[0].rowIds)|, rowCount);
      var rest := EntriesOf(group[1..], offset + |Deltas(group[0].rowIds)|, rowCount);
      forall i | 0 < i < |group|
        ensures EntriesOf(group, offset, rowCount)[i] == rest[i - 1] && group[i] == group[1..][i - 1]
      {
      }
    }
  }

  /** Each entry's range reads back as its list. */
  lemma {:induction false} EntriesReadBack(group: seq<Posting>, before: seq<byte>, after: seq<byte>, rowCount: nat)
    requires ListsValid(group, rowCount) && rowCount < U32_LIMIT
    ensures var entries := EntriesOf(group, |before|, rowCount);
            && |entries| == |group|
            && forall i :: 0 <= i < |group| ==>
                 PostingList(entries[i].range, before + PostingBytes(group, rowCount) + after, rowCount) == Ok(group[i].rowIds)
  {
    hide PostingList;
    if group != [] {
      var ids := group[0].rowIds;
      var deltas, tail := Deltas(ids), PostingBytes(group[1..], rowCount);
      var whole := before + PostingBytes(group, rowCount) + after;
      assert whole == before + deltas + (tail + after);
      assert whole == (before + deltas) + tail + after;
      FirstReadsBack(ids, before, tail + after, rowCount);
      EntriesReadBack(group[1..], before + deltas, after, rowCount);
      var rest := EntriesOf(group[1..], |before| + |deltas|, rowCount);
      forall i | 0 <= i < |group|
        ensures PostingList(EntriesOf(group, |before|, rowCount)[i].range, whole, rowCount) == Ok(group[i].rowIds)
      {
        if i > 0 {
          assert EntriesOf(group, |before|, rowCount)[i] == rest[i - 1] && group[i] == group[1..][i - 1];
        }
      }
    }
  }

  lemma FirstReadsBack(ids: seq<nat>, before: seq<byte>, after: seq<byte>, rowCount: nat)
    requires ListValid(ids, rowCount) && rowCount < U32_LIMIT
    ensures forall key :: PostingList(EntryOf(Posting(key, ids), |before|).range, before + Deltas(ids) + after, rowCount) == Ok(ids)
  {
    hide Varint, ReadDeltas;
    PostingRoundTrip(ids, before, after, rowCount);
    if |ids| == 1 {
      assert ids == [ids[0]];
    }
  }

  // ---------------------------------------------------------------- selections keep order

  lemma {:induction false} SelectedAscend(entries: seq<DiskEntry>, keep: DiskEntry -> bool)
    requires KeysAscend(entries)
    ensures KeysAscend(Select(entries, keep))
  {
    hide KeyBelow;
    if entries != [] {
      SelectedAscend(entries[1..], keep);
      SelectMembers(entries[1..], keep);
      var rest := Select(entries[1..], keep);
      forall j | 0 <= j < |rest| ensures KeyBelow(entries[0].key, rest[j].key) {
        assert rest[j] in entries[1..];
        var k :| 0 <= k < |entries[1..]| && entries[1..][k] == rest[j];
        assert entries[k + 1] == rest[j];
      }
    }
  }

  lemma {:induction false} SplitSizes(entries: seq<DiskEntry>)
    ensures |Select(entries, IsSingleton)| + |Select(entries, IsLonger)| == |entries|
  {
    if entries != [] {
      SplitSizes(entries[1..]);
    }
  }

  /** What is written for a group: its singletons, then its longer lists; and the ranges of the latter. */
  ghost predicate Encodes(kind: IndexKind, width: nat, entries: seq<DiskEntry>, bytes: seq<byte>, ranges: seq<DiskRange>) {
    var singletons, multis := Select(entries, IsSingleton), Select(entries, IsLonger);
    && bytes == EntriesBytes(kind, width, true, singletons) + EntriesBytes(kind, width, false, multis)
    && |ranges| == |multis| && forall i :: 0 <= i < |ranges| ==> ranges[i] == multis[i].range
  }

  /** An encoded group is stored as its entries, so decoding succeeds and gives them back in key order. */
  lemma EncodedGroupIsStored(kind: IndexKind, width: nat, entries: seq<DiskEntry>, bytes: seq<byte>, ranges: seq<DiskRange>)
    requires KeysAscend(entries) && EntriesFit(kind, width, true, entries)
    requires forall i :: 0 <= i < |entries| && IsSingleton(entries[i]) ==> entries[i].range == DiskRange(entries[i].range.firstRowId, 0, 0)
    requires Encodes(kind, width, entries, bytes, ranges)
    ensures |ranges| <= |entries|
    ensures GroupStored(kind, width, bytes, |entries|, ranges, Select(entries, IsSingleton), Select(entries, IsLonger))
    ensures Merges(Select(entries, IsSingleton), Select(entries, IsLonger), entries)
  {
    hide EntryLength, KeyFits, KeyBelow, EntriesBytes, Select, EntriesFit, KeysAscend, KeysDiffer;
    var singletons, multis := Select(entries, IsSingleton), Select(entries, IsLonger);
    SplitSizes(entries);
    SelectedAscend(entries, IsSingleton);
    SelectedAscend(entries, IsLonger);
    SelectMembers(entries, IsSingleton);
    SelectMembers(entries, IsLonger);
    EntriesBytesLength(kind, width, true, singletons);
    var split := |singletons| * EntryLength(kind, width, true);
    assert bytes[..split] == EntriesBytes(kind, width, true, singletons);
    assert bytes[split..] == EntriesBytes(kind, width, false, multis);
    SelectedFit(kind, width, entries, IsSingleton);
    SelectedFit(kind, width, entries, IsLonger);
    SingletonsDiffer(entries);
    forall i | 0 <= i < |singletons| ensures singletons[i].range == DiskRange(singletons[i].range.firstRowId, 0, 0) {
      assert singletons[i] in singletons;
      var k :| 0 <= k < |entries| && entries[k] == singletons[i];
    }
  }

  lemma SelectedFit(kind: IndexKind, width: nat, entries: seq<DiskEntry>, keep: DiskEntry -> bool)
    requires EntriesFit(kind, width, true, entries)
    ensures EntriesFit(kind, width, true, Select(entries, keep)) && EntriesFit(kind, width, false, Select(entries, keep))
  {
    hide KeyFits;
    SelectMembers(entries, keep);
    var selected := Select(entries, keep);
    forall i | 0 <= i < |selected|
      ensures KeyFits(kind, selected[i].key, Pow256(width)) && selected[i].range.firstRowId < Pow256(4)
    {
      assert selected[i] in selected;
      var k :| 0 <= k < |entries| && entries[k] == selected[i];
    }
  }

  lemma SingletonsDiffer(entries: seq<DiskEntry>)
    requires KeysAscend(entries)
    ensures KeysDiffer(Select(entries, IsSingleton), Select(entries, IsLonger))
  {
    SelectMembers(entries, IsSingleton);
    SelectMembers(entries, IsLonger);
    var left, right := Select(entries, IsSingleton), Select(entries, IsLonger);
    forall i, j | 0 <= i < |left| && 0 <= j < |right| ensures left[i].key != right[j].key {
      assert left[i] in left && right[j] in right;
      var a :| 0 <= a < |entries| && entries[a] == left[i];
      var b :| 0 <= b < |entries| && entries[b] == right[j];
      assert a != b;
    }
  }

  // ---------------------------------------------------------------- the encoder

  datatype EncodedGroup = EncodedGroup(width: KeyWidth, keyBytes: seq<byte>, ranges: seq<DiskRange>, postings: seq<byte>)

  function Largest(left: nat, right: nat): nat { if left < right then right else left }

  function MaxField(kind: IndexKind, key: DiskKey): nat {
    if kind.FieldCount() == 1 then key.first
    else if kind.FieldCount() == 2 then Largest(key.first, key.second)
    else Largest(key.first, Largest(key.second, key.third))
  }

  /** The largest field of the first `n` keys. */
  function LargestField(kind: IndexKind, group: seq<Posting>, n: nat): nat
    requires n <= |group|
  {
    if n == 0 then 0 else Largest(LargestField(kind, group, n - 1), MaxField(kind, group[n - 1].key))
  }

  /** The narrowest width that holds every key field of a group. */
  method GroupWidth(kind: IndexKind, group: seq<Posting>) returns (width: KeyWidth)
    requires KeysFit(kind, group, U32_LIMIT)
    ensures KeysFit(kind, group, Pow256(width.ByteLen())) && width == WidthForMax(LargestField(kind, group, |group|))
  {
    hide Pow256;
    var max: nat := 0;
    for i := 0 to |group|
      invariant max < U32_LIMIT && max == LargestField(kind, group, i)
      invariant forall k :: 0 <= k < i ==> MaxField(kind, group[k].key) <= max
    {
      max := Largest(max, MaxField(kind, group[i].key));
    }
    width := WidthForMax(max);
    WidthFits(max, max);
  }

  /** What the next posting adds. */
  lemma NextEntry(group: seq<Posting>, i: nat, offset: nat, rowCount: nat, keep: DiskEntry -> bool)
    requires ListsValid(group, rowCount) && i < |group|
    ensures ListsValid(group[..i], rowCount) && ListsValid(group[..i + 1], rowCount) && ListValid(group[i].rowIds, rowCount)
    ensures var entry := EntryOf(group[i], offset + |PostingBytes(group[..i], rowCount)|);
            && Select(EntriesOf(group[..i + 1], offset, rowCount), keep)
               == Select(EntriesOf(group[..i], offset, rowCount), keep) + (if keep(entry) then [entry] else [])
            && (IsSingleton(entry) <==> |group[i].rowIds| == 1)
    ensures PostingBytes(group[..i + 1], rowCount) == PostingBytes(group[..i], rowCount) + Deltas(group[i].rowIds)
  {
    hide DeltaBytes, ListValid;
    assert group[..i + 1] == group[..i] + [group[i]];
    assert ListValid(group[i].rowIds, rowCount);
    PostingBytesAppend(group[..i], group[i], rowCount);
    EntriesOfAppend(group[..i], group[i], offset, rowCount);
    var entry := EntryOf(group[i], offset + |PostingBytes(group[..i], rowCount)|);
    SelectConcat(EntriesOf(group[..i], offset, rowCount), [entry], keep);
    SingletonHasNoDeltas(group[i].rowIds);
  }

  lemma NextSingleton(group: seq<Posting>, i: nat, offset: nat, rowCount: nat)
    requires ListsValid(group, rowCount) && i < |group|
    ensures ListsValid(group[..i], rowCount) && ListsValid(group[..i + 1], rowCount) && ListValid(group[i].rowIds, rowCount)
    ensures Select(EntriesOf(group[..i + 1], offset, rowCount), IsSingleton)
            == if |group[i].rowIds| == 1
               then Select(EntriesOf(group[..i], offset, rowCount), IsSingleton) + [DiskEntry(group[i].key, DiskRange(group[i].rowIds[0], 0, 0))]
               else Select(EntriesOf(group[..i], offset, rowCount), IsSingleton)
  {
    NextEntry(group, i, offset, rowCount, IsSingleton);
  }

  lemma NextLonger(group: seq<Posting>, i: nat, offset: nat, rowCount: nat)
    requires ListsValid(group, rowCount) && i < |group|
    ensures ListsValid(group[..i], rowCount) && ListsValid(group[..i + 1], rowCount) && ListValid(group[i].rowIds, rowCount)
    ensures Select(EntriesOf(group[..i + 1], offset, rowCount), IsLonger)
            == if |group[i].rowIds| == 1
               then Select(EntriesOf(group[..i], offset, rowCount), IsLonger)
               else Select(EntriesOf(group[..i], offset, rowCount), IsLonger) +
                    [DiskEntry(group[i].key, DiskRange(group[i].rowIds[0], offset + |PostingBytes(group[..i], rowCount)|, |Deltas(group[i].rowIds)|))]
    ensures PostingBytes(group[..i + 1], rowCount) == PostingBytes(group[..i], rowCount) + Deltas(group[i].rowIds)
    ensures Deltas(group[i].rowIds) == [] <==> |group[i].rowIds| == 1
  {
    NextEntry(group, i, offset, rowCount, IsLonger);
    SingletonHasNoDeltas(group[i].rowIds);
  }

  /** Writes a group: its singletons beside their keys, then the keys of the longer lists, whose ranges and
      deltas go to their own sections. */
  method EncodeGroup(kind: IndexKind, group: seq<Posting>, postings: seq<byte>, ghost rowCount: nat) returns (r: EncodedGroup)
    requires ListsValid(group, rowCount) && KeysFit(kind, group, U32_LIMIT)
    ensures KeysFit(kind, group, Pow256(r.width.ByteLen())) && r.width == WidthForMax(LargestField(kind, group, |group|))
    ensures Encodes(kind, r.width.ByteLen(), EntriesOf(group, |postings|, rowCount), r.keyBytes, r.ranges)
    ensures r.postings == postings + PostingBytes(group, rowCount)
  {
    hide EntriesOf, PostingBytes, EntriesBytes, Select, DeltaBytes, KeyFits;
    var width := GroupWidth(kind, group);
    var keyBytes := EncodeSingletons(kind, width.ByteLen(), group, |postings|, rowCount);
    var multiBytes, ranges, written := EncodeLonger(kind, width.ByteLen(), group, postings, rowCount);
    r := EncodedGroup(width, keyBytes + multiBytes, ranges, written);
  }

  lemma NothingWritten(group: seq<Posting>, offset: nat, rowCount: nat)
    requires ListsValid(group, rowCount)
    ensures EntriesOf(group[..0], offset, rowCount) == [] && PostingBytes(group[..0], rowCount) == []
    ensures Select<DiskEntry>([], IsSingleton) == [] && Select<DiskEntry>([], IsLonger) == []
  {
  }

  method EncodeSingletons(kind: IndexKind, width: nat, group: seq<Posting>, ghost offset: nat, ghost rowCount: nat) returns (bytes: seq<byte>)
    requires ListsValid(group, rowCount)
    ensures bytes == EntriesBytes(kind, width, true, Select(EntriesOf(group, offset, rowCount), IsSingleton))
  {
    hide DeltaBytes, EntryBytes, EntriesOf, Select, PostingBytes;
    bytes := [];
    assert EntriesOf(group[..0], offset, rowCount) == [] && Select<DiskEntry>([], IsSingleton) == [] by { NothingWritten(group, offset, rowCount); }
    for i := 0 to |group|
      invariant bytes == EntriesBytes(kind, width, true, Select(EntriesOf(group[..i], offset, rowCount), IsSingleton))
    {
      ghost var done := EntriesOf(group[..i], offset, rowCount);
      NextSingleton(group, i, offset, rowCount);
      if |group[i].rowIds| == 1 {
        var entry := DiskEntry(group[i].key, DiskRange(group[i].rowIds[0], 0, 0));
        EntriesBytesAppend(kind, width, true, Select(done, IsSingleton), entry);
        bytes := bytes + EntryBytes(kind, width, true, entry);
      }
    }
    assert group[..|group|] == group;
  }

  /** The longer lists written so far. */
  ghost predicate LongerWritten(kind: IndexKind, width: nat, group: seq<Posting>, before: seq<byte>, rowCount: nat,
                                bytes: seq<byte>, ranges: seq<DiskRange>, postings: seq<byte>)
    requires ListsValid(group, rowCount)
  {
    var multis := Select(EntriesOf(group, |before|, rowCount), IsLonger);
    && bytes == EntriesBytes(kind, width, false, multis)
    && |ranges| == |multis| && (forall i :: 0 <= i < |ranges| ==> ranges[i] == multis[i].range)
    && postings == before + PostingBytes(group, rowCount)
  }

  method EncodeLonger(kind: IndexKind, width: nat, group: seq<Posting>, before: seq<byte>, ghost rowCount: nat)
    returns (bytes: seq<byte>, ranges: seq<DiskRange>, postings: seq<byte>)
    requires ListsValid(group, rowCount)
    ensures LongerWritten(kind, width, group, before, rowCount, bytes, ranges, postings)
  {
    hide DeltaBytes, KeyBytes, EntriesOf, EntriesBytes, Select, PostingBytes, Increasing;
    bytes, ranges, postings := [], [], before;
    NothingWritten(group, |before|, rowCount);
    NoEntries(kind, width, false, []);
    for i := 0 to |group|
      invariant LongerWritten(kind, width, group[..i], before, rowCount, bytes, ranges, postings)
    {
      ghost var multis := Select(EntriesOf(group[..i], |before|, rowCount), IsLonger);
      NextLonger(group, i, |before|, rowCount);
      if |group[i].rowIds| > 1 {
        var encoded := EncodePostingRange(group[i].rowIds, postings);
        ghost var entry := DiskEntry(group[i].key, encoded.value.0);
        assert EntryBytes(kind, width, false, entry) == KeyBytes(kind, width, group[i].key);
        EntriesBytesAppend(kind, width, false, multis, entry);
        bytes := bytes + KeyBytes(kind, width, group[i].key);
        ranges := ranges + [encoded.value.0];
        postings := encoded.value.1;
      }
    }
    assert group[..|group|] == group;
  }

  // ---------------------------------------------------------------- round trip

  /** Writing a group and reading it back gives its keys in order and its lists, whatever else the posting
      section holds before and after. */
  method GroupRoundTrip(kind: IndexKind, group: seq<Posting>, before: seq<byte>, after: seq<byte>, rowCount: nat)
    returns (entries: seq<DiskEntry>, postings: seq<byte>)
    requires GroupValid(kind, group, rowCount) && rowCount < U32_LIMIT
    ensures |entries| == |group| && before <= postings
    ensures forall i :: 0 <= i < |group| ==>
      entries[i].key == group[i].key && PostingList(entries[i].range, postings + after, rowCount) == Ok(group[i].rowIds)
  {
    hide EntriesBytes, Select, DeltaBytes, KeyFits, PostingList, StoredAs, RangesFrom;
    assert ListsValid(group, rowCount) && KeysFit(kind, group, U32_LIMIT);
    var encoded := EncodeGroup(kind, group, before, rowCount);
    postings := encoded.postings;
    ghost var expected := EntriesOf(group, |before|, rowCount);
    var width := encoded.width.ByteLen();
    EntriesOfShape(group, |before|, rowCount);
    EntriesAreStorable(kind, width, group, |before|, rowCount);
    EncodedGroupIsStored(kind, width, expected, encoded.keyBytes, encoded.ranges);
    var decoded, left, right := DecodeGroup(kind, width, encoded.keyBytes, |group|, encoded.ranges);
    GroupIsUnique(kind, width, encoded.keyBytes, |group|, encoded.ranges, left, right, Select(expected, IsSingleton), Select(expected, IsLonger));
    OrderIsUnique(decoded.value, expected);
    entries := decoded.value;
    EntriesReadBack(group, before, after, rowCount);
  }

  lemma EntriesAreStorable(kind: IndexKind, width: nat, group: seq<Posting>, offset: nat, rowCount: nat)
    requires GroupValid(kind, group, rowCount) && ListsValid(group, rowCount) && KeysFit(kind, group, Pow256(width)) && rowCount < U32_LIMIT
    ensures var entries := EntriesOf(group, offset, rowCount);
            && KeysAscend(entries) && EntriesFit(kind, width, true, entries)
            && forall i :: 0 <= i < |entries| && IsSingleton(entries[i]) ==> entries[i].range == DiskRange(entries[i].range.firstRowId, 0, 0)
  {
    hide KeyFits, KeyBelow, EntriesOf, Increasing;
    EntriesOfShape(group, offset, rowCount);
    assert Pow256(4) == U32_LIMIT by { assert Pow256(0) == 1 && Pow256(1) == 0x100 && Pow256(2) == 0x1_0000 && Pow256(3) == 0x100_0000; }
  }

  lemma GroupIsUnique(kind: IndexKind, width: nat, bytes: seq<byte>, keyCount: nat, ranges: seq<DiskRange>,
                      left: seq<DiskEntry>, right: seq<DiskEntry>, singletons: seq<DiskEntry>, multis: seq<DiskEntry>)
    requires |ranges| <= keyCount && GroupStored(kind, width, bytes, keyCount, ranges, left, right)
    requires GroupStored(kind, width, bytes, keyCount, ranges, singletons, multis)
    ensures left == singletons && right == multis
  {
    hide StoredAs, RangesFrom, KeysDiffer;
    var split := SingletonBytes(kind, width, keyCount, |ranges|);
    StoredIsUnique(kind, width, true, bytes[..split], keyCount - |ranges|, ranges, left, singletons);
    StoredIsUnique(kind, width, false, bytes[split..], |ranges|, ranges, right, multis);
  }
}
