/** How many row ids the posting lists hold beside their first: the same number when an index is written and
    when it is loaded. */
module PostingCounts {
  import opened IdentityIndex
  import opened PostingIndex
  import opened StoredRows
  import opened IndexGroups
  import opened IndexDecoder
  import opened IndexEncoder

  /** The row ids after the first, all lists together. */
  function Extra(group: seq<Posting>): int {
    if group == [] then 0 else Extra(group[..|group| - 1]) + |group[|group| - 1].rowIds| - 1
  }

  /** What an exact index of sorted keys lists. */
  ghost function PostingsOf(keys: seq<IndexKey>, rows: seq<Row>): seq<Posting> {
    seq(|keys|, i requires 0 <= i < |keys| => Posting(ToDisk(keys[i]), FromOne(KeyRows(rows, keys[i], |rows|))))
  }

  /** The keys of one kind that some row has, in order. */
  ghost predicate AllKeysOf(kind: IndexKind, keys: seq<IndexKey>, rows: seq<Row>) {
    && Ascending(KeyLess, keys)
    && (forall i :: 0 <= i < |keys| ==> KindOf(keys[i]) == kind && KeyRows(rows, keys[i], |rows|) != [])
    && (forall key: IndexKey :: KindOf(key) == kind && key !in keys ==> KeyRows(rows, key, |rows|) == [])
  }

  /** An exact index lists the group that would be written for the rows. */
  lemma ExactIsWritten(kind: IndexKind, keys: seq<IndexKey>, rows: seq<Row>)
    requires AllKeysOf(kind, keys, rows)
    ensures PostingsOf(keys, rows) == GroupFor(kind, rows)
  {
    hide ToDisk, KeyRows, KeyLess, KeyBelow, GroupUpTo, FromOne;
    var left, right := PostingsOf(keys, rows), GroupFor(kind, rows);
    GroupPostsRows(kind, rows, |rows|);
    forall i, j | 0 <= i < j < |left| ensures KeyBelow(left[i].key, left[j].key) {
      DiskOrderIsKeyOrder(keys[i], keys[j]);
    }
    forall posting | posting in left ensures posting in right {
      var i :| 0 <= i < |keys| && left[i] == posting;
      KeyIsWritten(kind, keys[i], rows);
    }
    forall posting | posting in right ensures posting in left {
      var i :| 0 <= i < |right| && right[i] == posting;
      var key := CarriedKey(kind, right, rows, i);
      var k :| 0 <= k < |keys| && keys[k] == key;
      assert left[k] == posting;
    }
    GroupIsDetermined(left, right);
  }

  lemma KeyIsWritten(kind: IndexKind, key: IndexKey, rows: seq<Row>)
    requires KindOf(key) == kind && KeyRows(rows, key, |rows|) != []
    ensures Posting(ToDisk(key), FromOne(KeyRows(rows, key, |rows|))) in GroupFor(kind, rows)
  {
    hide ToDisk, KeyRows, GroupUpTo;
    GroupPostsRows(kind, rows, |rows|);
    assert ListOf(GroupFor(kind, rows), ToDisk(key)) == ListSoFar(rows, key, |rows|, []);
    assert ListSoFar(rows, key, |rows|, []) == FromOne(KeyRows(rows, key, |rows|));
    ListedIsThere(GroupFor(kind, rows), ToDisk(key));
  }

  lemma {:induction false} SameTotals(keys: seq<IndexKey>, ranges: seq<PostingRange>, rows: seq<Row>)
    requires |keys| == |ranges|
    requires forall i :: 0 <= i < |keys| ==> |KeyRows(rows, keys[i], |rows|)| == ranges[i].overflowLen + 1
    ensures Extra(PostingsOf(keys, rows)) == TotalOverflow(ranges)
  {
    hide ToDisk, KeyRows;
    if keys != [] {
      var last := |keys| - 1;
      SameTotals(keys[..last], ranges[..last], rows);
      assert PostingsOf(keys, rows)[..last] == PostingsOf(keys[..last], rows);
    }
  }

  /** An exact index holds as many row ids beside the first as would be written. */
  lemma LoadedCount(kind: IndexKind, keys: seq<IndexKey>, ranges: seq<PostingRange>, rest: seq<RowId>, rows: seq<Row>)
    requires AllKeysOf(kind, keys, rows) && |keys| == |ranges|
    requires forall i :: 0 <= i < |keys| ==>
      ranges[i].overflowStart + ranges[i].overflowLen <= |rest| && RangeRows(ranges[i], rest) == KeyRows(rows, keys[i], |rows|)
    ensures TotalOverflow(ranges) == Extra(GroupFor(kind, rows))
  {
    hide ToDisk, KeyRows, GroupUpTo, AllKeysOf;
    ExactIsWritten(kind, keys, rows);
    SameTotals(keys, ranges, rows);
  }
}
