/** Posting lists on disk: delta-coded row ids, the split of an index group into singleton and longer
    lists, and the merge that puts a loaded group back into key order. Row ids here count from one. */
module PostingCodec {
  import opened Vocabulary
  import opened SnapshotBytes

  // ---------------------------------------------------------------- row id lists

  predicate Increasing(previous: nat, ids: seq<nat>)
    decreases |ids|
  {
    ids == [] || (previous < ids[0] && Increasing(ids[0], ids[1..]))
  }

  predicate UpTo(ids: seq<nat>, limit: nat) {
    forall i :: 0 <= i < |ids| ==> ids[i] <= limit
  }

  function DeltaBytes(previous: nat, ids: seq<nat>): seq<byte>
    requires Increasing(previous, ids)
    decreases |ids|
  {
    if ids == [] then [] else VarintBytes(ids[0] - previous) + DeltaBytes(ids[0], ids[1..])
  }

  /** The row ids a delta run stands for, from `offset` to its end. */
  function ReadDeltas(bytes: seq<byte>, offset: nat, previous: nat, rowCount: nat): Result<seq<nat>, FormatError>
    requires offset <= |bytes|
    decreases |bytes| - offset
  {
    if offset == |bytes| then Ok([])
    else
      var (delta, end) :- Varint(bytes, offset);
      VarintIsBounded(bytes, offset);
      if previous + delta > rowCount then Err(RowIdOutOfBounds)
      else
        var rest :- ReadDeltas(bytes, end, previous + delta, rowCount);
        Ok([previous + delta] + rest)
  }

  lemma VarintIsNonempty(value: nat)
    ensures VarintBytes(value) != []
  {
  }

  lemma {:induction false} DeltasRoundTrip(before: seq<byte>, previous: nat, ids: seq<nat>, rowCount: nat)
    requires Increasing(previous, ids) && UpTo(ids, rowCount) && rowCount < U32_LIMIT
    ensures ReadDeltas(before + DeltaBytes(previous, ids), |before|, previous, rowCount) == Ok(ids)
    decreases |ids|
  {
    hide Varint, VarintBytes;
    var bytes := before + DeltaBytes(previous, ids);
    if ids == [] {
      assert bytes == before;
    } else {
      var first := VarintBytes(ids[0] - previous);
      VarintIsNonempty(ids[0] - previous);
      assert bytes == before + first + DeltaBytes(ids[0], ids[1..]);
      VarintRoundTrip(before, ids[0] - previous, DeltaBytes(ids[0], ids[1..]));
      assert bytes == (before + first) + DeltaBytes(ids[0], ids[1..]);
      DeltasRoundTrip(before + first, ids[0], ids[1..], rowCount);
      assert [ids[0]] + ids[1..] == ids;
    }
  }

  lemma {:induction false} DeltasIncrease(bytes: seq<byte>, offset: nat, previous: nat, rowCount: nat)
    requires offset <= |bytes| && ReadDeltas(bytes, offset, previous, rowCount).Ok?
    ensures var ids := ReadDeltas(bytes, offset, previous, rowCount).value; Increasing(previous, ids) && UpTo(ids, rowCount)
    decreases |bytes| - offset
  {
    if offset < |bytes| {
      var (delta, end) := Varint(bytes, offset).value;
      VarintIsBounded(bytes, offset);
      DeltasIncrease(bytes, end, previous + delta, rowCount);
      var ids := ReadDeltas(bytes, offset, previous, rowCount).value;
      assert ids[1..] == ReadDeltas(bytes, end, previous + delta, rowCount).value;
    }
  }

  datatype DiskRange = DiskRange(firstRowId: nat, overflowStart: nat, overflowLen: nat)

  /** The row ids of a posting range: the first, and what its deltas add. */
  function PostingList(range: DiskRange, postings: seq<byte>, rowCount: nat): Result<seq<nat>, FormatError> {
    if range.firstRowId == 0 || range.firstRowId > rowCount then Err(RowIdOutOfBounds)
    else if range.overflowLen == 0 then Ok([range.firstRowId])
    else if range.overflowStart + range.overflowLen > |postings| then Err(PostingOutOfBounds)
    else
      var rest :- ReadDeltas(postings[range.overflowStart..range.overflowStart + range.overflowLen], 0, range.firstRowId, rowCount);
      Ok([range.firstRowId] + rest)
  }

  /** A posting list is a nonempty, increasing list of row ids within the row count. */
  predicate ListValid(ids: seq<nat>, rowCount: nat) {
    ids != [] && ids[0] > 0 && Increasing(ids[0], ids[1..]) && UpTo(ids, rowCount)
  }

  lemma PostingListIsValid(range: DiskRange, postings: seq<byte>, rowCount: nat)
    requires PostingList(range, postings, rowCount).Ok?
    ensures ListValid(PostingList(range, postings, rowCount).value, rowCount)
  {
    if range.overflowLen > 0 {
      DeltasIncrease(postings[range.overflowStart..range.overflowStart + range.overflowLen], 0, range.firstRowId, rowCount);
    }
  }

  /** Appends a list to the posting section. */
  method EncodePostingRange(ids: seq<nat>, postings: seq<byte>) returns (r: Result<(DiskRange, seq<byte>), FormatError>)
    ensures r.Ok? <==> ids != [] && Increasing(ids[0], ids[1..])
    ensures r.Ok? ==> r.value == (DiskRange(ids[0], |postings|, |DeltaBytes(ids[0], ids[1..])|), postings + DeltaBytes(ids[0], ids[1..]))
  {
    if ids == [] {
      return Err(EmptyPostingList);
    }
    hide VarintBytes;
    var previous: nat, bytes: seq<byte> := ids[0], postings;
    for i := 1 to |ids|
      invariant EncodedSoFar(ids, postings, bytes, previous, i)
    {
      assert ids[i..][1..] == ids[i + 1..] && ids[i..][0] == ids[i];
      if ids[i] <= previous {
        return Err(PostingsNotIncreasing);
      }
      var encoded := EncodeVarint(ids[i] - previous, bytes);
      EncodeNext(ids, postings, bytes, previous, i);
      bytes := encoded.value;
      previous := ids[i];
    }
    assert bytes + DeltaBytes(previous, []) == bytes;
    assert ids[|ids|..] == [];
    r := Ok((DiskRange(ids[0], |postings|, |bytes| - |postings|), bytes));
  }

  /** The ids before number `i` have been written. */
  ghost predicate EncodedSoFar(ids: seq<nat>, postings: seq<byte>, bytes: seq<byte>, previous: nat, i: nat) {
    && 0 < i <= |ids|
    && (Increasing(ids[0], ids[1..]) <==> Increasing(previous, ids[i..]))
    && (Increasing(previous, ids[i..]) ==> bytes + DeltaBytes(previous, ids[i..]) == postings + DeltaBytes(ids[0], ids[1..]))
  }

  lemma EncodeNext(ids: seq<nat>, postings: seq<byte>, bytes: seq<byte>, previous: nat, i: nat)
    requires EncodedSoFar(ids, postings, bytes, previous, i) && i < |ids| && previous < ids[i]
    ensures EncodedSoFar(ids, postings, bytes + VarintBytes(ids[i] - previous), ids[i], i + 1)
  {
    hide VarintBytes;
    var rest := ids[i..];
    assert rest[0] == ids[i] && rest[1..] == ids[i + 1..];
    if Increasing(ids[i], ids[i + 1..]) {
      assert DeltaBytes(previous, rest) == VarintBytes(ids[i] - previous) + DeltaBytes(ids[i], ids[i + 1..]);
    }
  }

  /** What was encoded is decoded, however much the section grows afterwards. */
  lemma PostingRoundTrip(ids: seq<nat>, before: seq<byte>, after: seq<byte>, rowCount: nat)
    requires ListValid(ids, rowCount) && rowCount < U32_LIMIT
    ensures var deltas := DeltaBytes(ids[0], ids[1..]);
            PostingList(DiskRange(ids[0], |before|, |deltas|), before + deltas + after, rowCount) == Ok(ids)
  {
    var deltas := DeltaBytes(ids[0], ids[1..]);
    var postings := before + deltas + after;
    assert postings[|before|..|before| + |deltas|] == deltas;
    assert [] + deltas == deltas;
    assert [ids[0]] + ids[1..] == ids;
    assert ids[0] <= rowCount && UpTo(ids[1..], rowCount);
    if ids[1..] == [] {
      assert deltas == [] && ids == [ids[0]];
    } else {
      VarintIsNonempty(ids[1..][0] - ids[0]);
      assert |deltas| > 0;
      DeltasRoundTrip([], ids[0], ids[1..], rowCount);
    }
  }

  ghost predicate ReadSoFar(whole: Result<seq<nat>, FormatError>, first: nat, ids: seq<nat>, rest: Result<seq<nat>, FormatError>) {
    match rest
    case Err(error) => whole == Err(error)
    case Ok(left) => whole.Ok? && [first] + whole.value == ids + left
  }

  /** Walks a posting range. */
  method DecodePostingList(range: DiskRange, postings: seq<byte>, rowCount: nat) returns (r: Result<seq<nat>, FormatError>)
    ensures r == PostingList(range, postings, rowCount)
  {
    hide Varint;
    if range.firstRowId == 0 || range.firstRowId > rowCount {
      return Err(RowIdOutOfBounds);
    }
    var ids: seq<nat> := [range.firstRowId];
    if range.overflowLen == 0 {
      return Ok(ids);
    }
    if range.overflowStart + range.overflowLen > |postings| {
      return Err(PostingOutOfBounds);
    }
    var bytes := postings[range.overflowStart..range.overflowStart + range.overflowLen];
    var offset: nat, previous: nat := 0, range.firstRowId;
    ghost var whole := ReadDeltas(bytes, 0, range.firstRowId, rowCount);
    while offset != |bytes|
      invariant offset <= |bytes|
      invariant ReadSoFar(whole, range.firstRowId, ids, ReadDeltas(bytes, offset, previous, rowCount))
      decreases |bytes| - offset
    {
      var delta := DecodeVarint(bytes, offset);
      if delta.Err? {
        return Err(delta.error);
      }
      VarintIsBounded(bytes, offset);
      if previous + delta.value.0 > rowCount {
        return Err(RowIdOutOfBounds);
      }
      previous := previous + delta.value.0;
      ids := ids + [previous];
      offset := delta.value.1;
    }
    assert ids + [] == ids;
    r := Ok(ids);
  }
}
