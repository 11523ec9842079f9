/** Building the index groups of a snapshot from its rows, and the round trip through the validating
    decoder. */
module IndexEncoder {
  import opened Vocabulary
  import opened IdentityIndex
  import opened PostingIndex
  import opened StoredRows
  import opened SnapshotBytes
  import opened PostingCodec
  import opened IndexGroups
  import opened GroupEncoding
  import opened IndexDecoder

  /** Appends a row id to the list of a key in an ordered map. */
  function PostRowId(group: seq<Posting>, key: DiskKey, rowId: nat): seq<Posting> {
    if group == [] then [Posting(key, [rowId])]
    else if group[0].key == key then [Posting(key, group[0].rowIds + [rowId])] + group[1..]
    else if KeyBelow(key, group[0].key) then [Posting(key, [rowId])] + group
    else [group[0]] + PostRowId(group[1..], key, rowId)
  }

  /** The list of a key; empty if it is not in the map. */
  function ListOf(group: seq<Posting>, key: DiskKey): seq<nat> {
    if group == [] then [] else if group[0].key == key then group[0].rowIds else ListOf(group[1..], key)
  }

  lemma {:induction false} PostKeepsOthers(group: seq<Posting>, key: DiskKey, rowId: nat, other: DiskKey)
    requires PostingsAscend(group)
    ensures ListOf(PostRowId(group, key, rowId), other) == ListOf(group, other) + if other == key then [rowId] else []
  {
    hide KeyBelow;
    if group != [] {
      if group[0].key == key {
      } else if KeyBelow(key, group[0].key) {
        if other == key {
          AbsentBelow(group, key);
        }
        assert ([Posting(key, [rowId])] + group)[1..] == group;
      } else {
        PostKeepsOthers(group[1..], key, rowId, other);
      }
    }
  }

  /** A key before the first is not in an ordered map. */
  lemma {:induction false} AbsentBelow(group: seq<Posting>, key: DiskKey)
    requires PostingsAscend(group) && (group != [] ==> KeyBelow(key, group[0].key))
    ensures ListOf(group, key) == []
  {
    hide KeyBelow;
    if group != [] {
      KeysCompare(key, group[0].key);
      if |group| > 1 {
        KeyBelowIsTransitive(key, group[0].key, group[1].key);
      }
      AbsentBelow(group[1..], key);
    }
  }

  ghost predicate AllAbove(group: seq<Posting>, key: DiskKey) {
    forall i :: 0 <= i < |group| ==> KeyBelow(key, group[i].key)
  }

  lemma {:induction false} PostKeepsOrder(group: seq<Posting>, key: DiskKey, rowId: nat, floor: DiskKey)
    requires PostingsAscend(group)
    ensures PostingsAscend(PostRowId(group, key, rowId))
    ensures AllAbove(group, floor) && KeyBelow(floor, key) ==> AllAbove(PostRowId(group, key, rowId), floor)
  {
    hide KeyBelow;
    if group == [] {
    } else if group[0].key == key {
    } else if KeyBelow(key, group[0].key) {
      forall i | 0 <= i < |group| ensures KeyBelow(key, group[i].key) {
        if i > 0 {
          KeyBelowIsTransitive(key, group[0].key, group[i].key);
        }
      }
    } else {
      KeysCompare(key, group[0].key);
      PostKeepsOrder(group[1..], key, rowId, group[0].key);
      PostKeepsOrder(group[1..], key, rowId, floor);
    }
  }

  lemma {:induction false} PostKeepsKeys(group: seq<Posting>, key: DiskKey, rowId: nat)
    ensures forall posting :: posting in PostRowId(group, key, rowId) ==>
      posting.key == key || exists i :: 0 <= i < |group| && group[i].key == posting.key
    ensures (forall i :: 0 <= i < |group| ==> group[i].rowIds != []) ==> forall posting :: posting in PostRowId(group, key, rowId) ==> posting.rowIds != []
  {
    if group != [] && group[0].key != key && !KeyBelow(key, group[0].key) {
      PostKeepsKeys(group[1..], key, rowId);
      var rest := PostRowId(group[1..], key, rowId);
      forall posting | posting in rest ensures posting.key == key || exists i :: 0 <= i < |group| && group[i].key == posting.key {
        if posting.key != key {
          var i :| 0 <= i < |group[1..]| && group[1..][i].key == posting.key;
          assert group[i + 1].key == posting.key;
        }
      }
    }
  }

  lemma {:induction false} ListOfMember(group: seq<Posting>, i: nat)
    requires PostingsAscend(group) && i < |group|
    ensures ListOf(group, group[i].key) == group[i].rowIds
  {
    hide KeyBelow;
    if i > 0 {
      KeysCompare(group[0].key, group[i].key);
      ListOfMember(group[1..], i - 1);
    }
  }

  function FromOne(ids: seq<RowId>): seq<nat> {
    seq(|ids|, i requires 0 <= i < |ids| => ids[i] + 1)
  }

  ghost predicate IsKeyOf(kind: IndexKind, disk: DiskKey) {
    exists key: IndexKey :: KindOf(key) == kind && ToDisk(key) == disk
  }

  ghost function ListSoFar(rows: seq<Row>, key: IndexKey, n: nat, done: seq<IndexKey>): seq<nat>
    requires n <= |rows|
  {
    FromOne(KeyRows(rows, key, n)) + if key in done then [n + 1] else []
  }

  /** The group of the first `n` rows, and the first `done` keys of the next: each key of the kind with the rows that have it. */
  ghost predicate GroupOf(kind: IndexKind, group: seq<Posting>, rows: seq<Row>, n: nat, done: seq<IndexKey>)
    requires n <= |rows|
  {
    && PostingsAscend(group)
    && (forall i :: 0 <= i < |group| ==> group[i].rowIds != [])
    && (forall i :: 0 <= i < |group| ==> IsKeyOf(kind, group[i].key))
    && (forall key: IndexKey :: KindOf(key) == kind ==> ListOf(group, ToDisk(key)) == ListSoFar(rows, key, n, done))
  }

  lemma PostedListGrows(kind: IndexKind, group: seq<Posting>, rows: seq<Row>, n: nat, done: seq<IndexKey>, next: IndexKey, key: IndexKey)
    requires n <= |rows| && GroupOf(kind, group, rows, n, done) && KindOf(next) == kind == KindOf(key) && next !in done
    ensures ListOf(PostRowId(group, ToDisk(next), n + 1), ToDisk(key)) == ListSoFar(rows, key, n, done + [next])
  {
    hide KeyBelow, ToDisk, KeyRows, PostRowId, ListOf, FromOne;
    PostKeepsOthers(group, ToDisk(next), n + 1, ToDisk(key));
    DiskOrderIsKeyOrder(key, next);
  }

  lemma PostNext(kind: IndexKind, group: seq<Posting>, rows: seq<Row>, n: nat, done: seq<IndexKey>, next: IndexKey)
    requires n <= |rows| && GroupOf(kind, group, rows, n, done) && KindOf(next) == kind && next !in done
    ensures GroupOf(kind, PostRowId(group, ToDisk(next), n + 1), rows, n, done + [next])
  {
    hide KeyBelow, ToDisk, KeyRows, PostRowId, ListOf, ListSoFar;
    var posted := PostRowId(group, ToDisk(next), n + 1);
    PostKeepsOrder(group, ToDisk(next), n + 1, ToDisk(next));
    PostKeepsKeys(group, ToDisk(next), n + 1);
    forall i | 0 <= i < |posted|
      ensures posted[i].rowIds != [] && IsKeyOf(kind, posted[i].key)
    {
      assert posted[i] in posted;
    }
    forall key: IndexKey | KindOf(key) == kind
      ensures ListOf(posted, ToDisk(key)) == ListSoFar(rows, key, n, done + [next])
    {
      PostedListGrows(kind, group, rows, n, done, next, key);
    }
  }

  lemma SkipOtherKind(kind: IndexKind, group: seq<Posting>, rows: seq<Row>, n: nat, done: seq<IndexKey>, next: IndexKey)
    requires n <= |rows| && GroupOf(kind, group, rows, n, done) && KindOf(next) != kind
    ensures GroupOf(kind, group, rows, n, done + [next])
  {
    hide ToDisk, KeyRows;
    forall key: IndexKey | KindOf(key) == kind
      ensures ListOf(group, ToDisk(key)) == ListSoFar(rows, key, n, done + [next])
    {
      assert key != next;
    }
  }

  lemma RowFinished(kind: IndexKind, group: seq<Posting>, rows: seq<Row>, n: nat)
    requires n < |rows| && GroupOf(kind, group, rows, n, KeysOf(rows[n]))
    ensures GroupOf(kind, group, rows, n + 1, [])
  {
    hide ToDisk, KeysOf, ListOf;
    forall key: IndexKey | KindOf(key) == kind
      ensures ListOf(group, ToDisk(key)) == ListSoFar(rows, key, n + 1, [])
    {
      assert FromOne(KeyRows(rows, key, n + 1)) == ListSoFar(rows, key, n, KeysOf(rows[n]));
    }
  }

  function PostKey(kind: IndexKind, group: seq<Posting>, key: IndexKey, rowId: nat): seq<Posting> {
    if KindOf(key) == kind then PostRowId(group, ToDisk(key), rowId) else group
  }

  function PostKeys(kind: IndexKind, group: seq<Posting>, keys: seq<IndexKey>, rowId: nat): seq<Posting> {
    if keys == [] then group
    else PostKey(kind, PostKeys(kind, group, keys[..|keys| - 1], rowId), keys[|keys| - 1], rowId)
  }

  /** The group of the first `n` rows. */
  function GroupUpTo(kind: IndexKind, rows: seq<Row>, n: nat): seq<Posting>
    requires n <= |rows|
  {
    if n == 0 then [] else PostKeys(kind, GroupUpTo(kind, rows, n - 1), KeysOf(rows[n - 1]), n)
  }

  function GroupFor(kind: IndexKind, rows: seq<Row>): seq<Posting> { GroupUpTo(kind, rows, |rows|) }

  lemma {:induction false} KeysArePosted(kind: IndexKind, group: seq<Posting>, rows: seq<Row>, n: nat, j: nat)
    requires n < |rows| && j <= |KeysOf(rows[n])| && GroupOf(kind, group, rows, n, [])
    ensures GroupOf(kind, PostKeys(kind, group, KeysOf(rows[n])[..j], n + 1), rows, n, KeysOf(rows[n])[..j])
    decreases j
  {
    hide ToDisk, KeysOf, PostRowId, GroupOf;
    var keys := KeysOf(rows[n]);
    if j > 0 {
      KeysArePosted(kind, group, rows, n, j - 1);
      KeysAreDistinct(rows[n]);
      assert keys[..j] == keys[..j - 1] + [keys[j - 1]] && keys[j - 1] !in keys[..j - 1];
      assert keys[..j][..j - 1] == keys[..j - 1];
      var posted := PostKeys(kind, group, keys[..j - 1], n + 1);
      if KindOf(keys[j - 1]) == kind {
        PostNext(kind, posted, rows, n, keys[..j - 1], keys[j - 1]);
      } else {
        SkipOtherKind(kind, posted, rows, n, keys[..j - 1], keys[j - 1]);
      }
    }
  }

  /** The group posts every row under its keys of the kind, in row order. */
  lemma {:induction false} GroupPostsRows(kind: IndexKind, rows: seq<Row>, n: nat)
    requires n <= |rows|
    ensures GroupOf(kind, GroupUpTo(kind, rows, n), rows, n, [])
  {
    hide ToDisk, KeysOf, PostRowId, GroupOf, PostKeys;
    if n == 0 {
      NoRowsPosted(kind, rows);
    } else {
      GroupPostsRows(kind, rows, n - 1);
      var keys := KeysOf(rows[n - 1]);
      KeysArePosted(kind, GroupUpTo(kind, rows, n - 1), rows, n - 1, |keys|);
      assert keys[..|keys|] == keys;
      RowFinished(kind, GroupUpTo(kind, rows, n), rows, n - 1);
    }
  }

  /** Posts every row under its keys of one kind. */
  method BuildGroup(kind: IndexKind, rows: seq<Row>) returns (group: seq<Posting>)
    ensures group == GroupFor(kind, rows) && GroupOf(kind, group, rows, |rows|, [])
  {
    hide ToDisk, KeysOf, PostRowId, GroupOf;
    group := [];
    for n := 0 to |rows|
      invariant group == GroupUpTo(kind, rows, n)
    {
      var keys := KeysOf(rows[n]);
      for j := 0 to |keys|
        invariant group == PostKeys(kind, GroupUpTo(kind, rows, n), keys[..j], n + 1)
      {
        assert keys[..j + 1][..j] == keys[..j];
        if KindOf(keys[j]) == kind {
          group := PostRowId(group, ToDisk(keys[j]), n + 1);
        }
      }
      assert keys[..|keys|] == keys;
    }
    GroupPostsRows(kind, rows, |rows|);
  }

  lemma NoRowsPosted(kind: IndexKind, rows: seq<Row>)
    ensures GroupOf(kind, [], rows, 0, [])
  {
    hide ToDisk, KeysOf;
  }

  /** A key with a list is in the map. */
  lemma {:induction false} ListedIsThere(group: seq<Posting>, key: DiskKey)
    ensures ListOf(group, key) != [] ==> Posting(key, ListOf(group, key)) in group
  {
    if group != [] && group[0].key != key {
      ListedIsThere(group[1..], key);
    }
  }

  /** An ordered map is determined by its postings. */
  lemma {:induction false} GroupIsDetermined(left: seq<Posting>, right: seq<Posting>)
    requires PostingsAscend(left) && PostingsAscend(right)
    requires forall posting :: posting in left <==> posting in right
    ensures left == right
  {
    hide KeyBelow;
    if left == [] {
      assert forall i :: 0 <= i < |right| ==> right[i] in right;
    } else {
      assert left[0] in right && right[0] in left;
      SameFirst(left, right);
      WithoutFirst(left);
      WithoutFirst(right);
      GroupIsDetermined(left[1..], right[1..]);
      assert left == [left[0]] + left[1..] && right == [right[0]] + right[1..];
    }
  }

  lemma NotBothBelow(left: DiskKey, right: DiskKey)
    ensures !(KeyBelow(left, right) && KeyBelow(right, left))
  {
  }

  lemma SameFirst(left: seq<Posting>, right: seq<Posting>)
    requires PostingsAscend(left) && PostingsAscend(right)
    requires left != [] && right != [] && left[0] in right && right[0] in left
    ensures left[0] == right[0]
  {
    var i :| 0 <= i < |left| && left[i] == right[0];
    var j :| 0 <= j < |right| && right[j] == left[0];
    NotBothBelow(left[0].key, right[0].key);
    assert i > 0 ==> KeyBelow(left[0].key, right[0].key);
    assert j > 0 ==> KeyBelow(right[0].key, left[0].key);
  }

  lemma WithoutFirst(group: seq<Posting>)
    requires group != [] && PostingsAscend(group)
    ensures forall posting :: posting in group[1..] <==> posting in group && posting != group[0]
  {
    forall posting | posting in group[1..] ensures posting in group && posting != group[0] {
      var i :| 0 <= i < |group[1..]| && group[1..][i] == posting;
      KeysCompare(group[0].key, group[i + 1].key);
    }
    assert group == [group[0]] + group[1..];
  }

  // ---------------------------------------------------------------- round trip

  lemma {:induction false} AscendingIncreases(ids: seq<nat>, previous: nat)
    requires forall i, j :: 0 <= i < j < |ids| ==> ids[i] < ids[j]
    requires ids != [] ==> previous < ids[0]
    ensures Increasing(previous, ids)
    decreases |ids|
  {
    if ids != [] {
      AscendingIncreases(ids[1..], ids[0]);
    }
  }

  lemma RowListIsValid(rows: seq<Row>, key: IndexKey)
    requires KeyRows(rows, key, |rows|) != []
    ensures ListValid(FromOne(KeyRows(rows, key, |rows|)), |rows|) && InRangeFromOne(FromOne(KeyRows(rows, key, |rows|)))
    ensures FromZero(FromOne(KeyRows(rows, key, |rows|))) == KeyRows(rows, key, |rows|)
  {
    hide KeyRows;
    KeyRowsAscend(rows, key, |rows|);
    KeyRowsInRange(rows, key, |rows|);
    var ids := FromOne(KeyRows(rows, key, |rows|));
    forall i, j | 0 <= i < j < |ids| ensures ids[i] < ids[j] {
      assert KeyRows(rows, key, |rows|)[i] < KeyRows(rows, key, |rows|)[j];
    }
    AscendingIncreases(ids[1..], ids[0]);
  }

  lemma RowKeysFit(rows: seq<Row>, key: IndexKey, symbolCount: nat)
    requires AllResolve(rows, symbolCount) && symbolCount < U32_LIMIT && KeyRows(rows, key, |rows|) != []
    ensures KeyFits(KindOf(key), ToDisk(key), U32_LIMIT)
    ensures KeyFromDisk(KindOf(key), ToDisk(key), symbolCount) == Ok(key)
  {
    hide KeyRows, KeysOf;
    KeyRowsAscend(rows, key, |rows|);
    var id := KeyRows(rows, key, |rows|)[0];
    assert id in KeyRows(rows, key, |rows|);
    MatchesAreKeys(rows[id], key);
    KeyOfRowFits(rows[id], key, symbolCount);
  }

  lemma KeyOfRowFits(row: Row, key: IndexKey, symbolCount: nat)
    requires Resolves(row, symbolCount) && symbolCount < U32_LIMIT && RowMatchesKey(KindOf(key), row, ToDisk(key))
    ensures KeyFits(KindOf(key), ToDisk(key), U32_LIMIT)
    ensures KeyFromDisk(KindOf(key), ToDisk(key), symbolCount) == Ok(key)
  {
  }

  /** A posting carries the rows of one key. */
  ghost predicate Carries(kind: IndexKind, posting: Posting, rows: seq<Row>, key: IndexKey) {
    && KindOf(key) == kind && ToDisk(key) == posting.key
    && posting.rowIds == FromOne(KeyRows(rows, key, |rows|)) && KeyRows(rows, key, |rows|) != []
  }

  lemma BuiltGroupIsValid(kind: IndexKind, group: seq<Posting>, rows: seq<Row>, symbolCount: nat)
    requires GroupOf(kind, group, rows, |rows|, []) && AllResolve(rows, symbolCount) && symbolCount < U32_LIMIT
    ensures GroupValid(kind, group, |rows|)
  {
    hide ToDisk, KeyFits, ListValid, KeyRows, PostingsAscend, GroupOf;
    assert PostingsAscend(group) by { OrderOf(kind, group, rows); }
    forall i | 0 <= i < |group| ensures KeyFits(kind, group[i].key, U32_LIMIT) && ListValid(group[i].rowIds, |rows|) {
      var key := CarriedKey(kind, group, rows, i);
      RowListIsValid(rows, key);
      RowKeysFit(rows, key, symbolCount);
    }
  }

  lemma OrderOf(kind: IndexKind, group: seq<Posting>, rows: seq<Row>)
    requires GroupOf(kind, group, rows, |rows|, [])
    ensures PostingsAscend(group)
  {
  }

  lemma CarriedKey(kind: IndexKind, group: seq<Posting>, rows: seq<Row>, i: nat) returns (key: IndexKey)
    requires GroupOf(kind, group, rows, |rows|, []) && i < |group|
    ensures Carries(kind, group[i], rows, key)
  {
    hide ToDisk, KeyRows;
    assert IsKeyOf(kind, group[i].key);
    key :| KindOf(key) == kind && ToDisk(key) == group[i].key;
    ListOfMember(group, i);
    assert group[i].rowIds == ListSoFar(rows, key, |rows|, []);
  }

  /** Entries that carry a built group are faithful to its rows. */
  lemma CarriedGroupIsFaithful(kind: IndexKind, group: seq<Posting>, entries: seq<DiskEntry>, postings: seq<byte>, rows: seq<Row>, symbolCount: nat)
    requires GroupOf(kind, group, rows, |rows|, []) && AllResolve(rows, symbolCount) && symbolCount < U32_LIMIT
    requires |entries| == |group|
    requires forall i :: 0 <= i < |group| ==>
      entries[i].key == group[i].key && PostingList(entries[i].range, postings, |rows|) == Ok(group[i].rowIds)
    ensures Faithful(kind, entries, postings, rows, symbolCount)
  {
    hide ToDisk, KeyFits, ListValid, KeyRows, PostingList, KeyFromDisk;
    forall i | 0 <= i < |entries| ensures EntryFaithful(kind, entries[i], postings, rows, symbolCount) {
      var key := CarriedKey(kind, group, rows, i);
      RowKeysFit(rows, key, symbolCount);
      RowListIsValid(rows, key);
    }
    forall key: IndexKey | KindOf(key) == kind && KeyRows(rows, key, |rows|) != []
      ensures exists i :: 0 <= i < |entries| && entries[i].key == ToDisk(key)
    {
      assert ListOf(group, ToDisk(key)) == ListSoFar(rows, key, |rows|, []);
      var i := ListedSomewhere(group, ToDisk(key));
      assert entries[i].key == ToDisk(key);
    }
  }

  lemma {:induction false} ListedSomewhere(group: seq<Posting>, key: DiskKey) returns (i: nat)
    requires ListOf(group, key) != []
    ensures i < |group| && group[i].key == key
  {
    i := 0;
    if group[0].key != key {
      var rest := ListedSomewhere(group[1..], key);
      i := rest + 1;
    }
  }

  /** Any index of any rows, written into its sections and read back with full validation, lists for every key of
      its kind exactly the rows that have it, in row order. */
  method IndexRoundTrip(kind: IndexKind, rows: seq<Row>, symbolCount: nat, before: seq<byte>, after: seq<byte>)
    returns (index: PostingIndex<IndexKey>)
    requires AllResolve(rows, symbolCount) && symbolCount < U32_LIMIT && |rows| < U32_LIMIT
    ensures fresh(index) && index.Valid()
    ensures forall key: IndexKey :: index.Listed(key) == if KindOf(key) == kind then KeyRows(rows, key, |rows|) else []
  {
    hide ToDisk, KeyFits, ListValid, KeyRows, PostingList, KeyFromDisk, GroupOf, Faithful;
    var group := BuildGroup(kind, rows);
    BuiltGroupIsValid(kind, group, rows, symbolCount);
    var entries, written := GroupRoundTrip(kind, group, before, after, |rows|);
    EntriesAscend(group, entries);
    CarriedGroupIsFaithful(kind, group, entries, written + after, rows, symbolCount);
    var decoded := DecodeIndex(kind, entries, written + after, rows, symbolCount, true);
    index := decoded.value;
  }

  lemma EntriesAscend(group: seq<Posting>, entries: seq<DiskEntry>)
    requires PostingsAscend(group) && |entries| == |group| && forall i :: 0 <= i < |group| ==> entries[i].key == group[i].key
    ensures KeysAscend(entries)
  {
  }
}
