/** The validating index decoder: whatever postings it is given, what it accepts lists, for every key,
    exactly the rows that have it. */
module IndexDecoder {
  import opened Vocabulary
  import opened IdentityIndex
  import opened PostingIndex
  import opened StoredRows
  import opened SnapshotBytes
  import opened PostingCodec
  import opened IndexGroups

  function KindOf(key: IndexKey): IndexKind {
    match key
    case ByResource(_, _, _) => Resource
    case ByResourceObject(_, _) => ResourceObject
    case ByResourceTypeRelation(_, _) => ResourceTypeRelation
    case ByResourceType(_) => ResourceType
    case BySubject(_, _, _) => Subject
    case BySubjectTypeRelation(_, _) => SubjectTypeRelation
    case BySubjectType(_) => SubjectType
  }

  /** Symbols count from one on disk; zero stands for no relation. */
  function ToDisk(key: IndexKey): DiskKey {
    match key
    case ByResource(t, id, relation) => DiskKey(t + 1, id + 1, relation + 1)
    case ByResourceObject(t, id) => DiskKey(t + 1, id + 1, 0)
    case ByResourceTypeRelation(t, relation) => DiskKey(t + 1, relation + 1, 0)
    case ByResourceType(t) => DiskKey(t + 1, 0, 0)
    case BySubject(t, id, relation) => DiskKey(t + 1, id + 1, if relation.Some? then relation.value + 1 else 0)
    case BySubjectTypeRelation(t, relation) => DiskKey(t + 1, relation + 1, 0)
    case BySubjectType(t) => DiskKey(t + 1, 0, 0)
  }

  function EnsureZero(value: nat): Result<(), FormatError> {
    if value == 0 then Ok(()) else Err(KeyFieldNotZero)
  }

  function KeyFromDisk(kind: IndexKind, key: DiskKey, symbolCount: nat): Result<IndexKey, FormatError> {
    match kind
    case Resource =>
      var t :- SymbolFromRaw(key.first, symbolCount);
      var id :- SymbolFromRaw(key.second, symbolCount);
      var relation :- SymbolFromRaw(key.third, symbolCount);
      Ok(ByResource(t, id, relation))
    case ResourceObject =>
      var _ :- EnsureZero(key.third);
      var t :- SymbolFromRaw(key.first, symbolCount);
      var id :- SymbolFromRaw(key.second, symbolCount);
      Ok(ByResourceObject(t, id))
    case ResourceTypeRelation =>
      var _ :- EnsureZero(key.third);
      var t :- SymbolFromRaw(key.first, symbolCount);
      var relation :- SymbolFromRaw(key.second, symbolCount);
      Ok(ByResourceTypeRelation(t, relation))
    case ResourceType =>
      var _ :- EnsureZero(key.second);
      var _ :- EnsureZero(key.third);
      var t :- SymbolFromRaw(key.first, symbolCount);
      Ok(ByResourceType(t))
    case Subject =>
      var relation :- if key.third == 0 then Ok(None) else (var r :- SymbolFromRaw(key.third, symbolCount); Ok(Some(r)));
      var t :- SymbolFromRaw(key.first, symbolCount);
      var id :- SymbolFromRaw(key.second, symbolCount);
      Ok(BySubject(t, id, relation))
    case SubjectTypeRelation =>
      var _ :- EnsureZero(key.third);
      var t :- SymbolFromRaw(key.first, symbolCount);
      var relation :- SymbolFromRaw(key.second, symbolCount);
      Ok(BySubjectTypeRelation(t, relation))
    case SubjectType =>
      var _ :- EnsureZero(key.second);
      var _ :- EnsureZero(key.third);
      var t :- SymbolFromRaw(key.first, symbolCount);
      Ok(BySubjectType(t))
  }

  lemma KeyFromDiskIsInverse(kind: IndexKind, key: DiskKey, symbolCount: nat)
    requires KeyFromDisk(kind, key, symbolCount).Ok?
    ensures var typed := KeyFromDisk(kind, key, symbolCount).value; KindOf(typed) == kind && ToDisk(typed) == key
  {
  }

  /** Disk order is key order, within a kind. */
  lemma DiskOrderIsKeyOrder(left: IndexKey, right: IndexKey)
    requires KindOf(left) == KindOf(right)
    ensures KeyBelow(ToDisk(left), ToDisk(right)) <==> KeyLess(left, right)
    ensures ToDisk(left) == ToDisk(right) <==> left == right
  {
  }

  /** Whether a row has a disk key. A subject key without a relation matches every row of its subject. */
  predicate RowMatchesKey(kind: IndexKind, row: Row, key: DiskKey) {
    match kind
    case Resource => row.resourceType + 1 == key.first && row.resourceId + 1 == key.second && row.relation + 1 == key.third
    case ResourceObject => row.resourceType + 1 == key.first && row.resourceId + 1 == key.second && key.third == 0
    case ResourceTypeRelation => row.resourceType + 1 == key.first && row.relation + 1 == key.second && key.third == 0
    case ResourceType => row.resourceType + 1 == key.first && key.second == 0 && key.third == 0
    case Subject =>
      && row.subjectType + 1 == key.first && row.subjectId + 1 == key.second
      && (key.third == 0 || (row.subjectRelation.Some? && row.subjectRelation.value + 1 == key.third))
    case SubjectTypeRelation =>
      && row.subjectType + 1 == key.first && row.subjectRelation.Some? && row.subjectRelation.value + 1 == key.second
      && key.third == 0
    case SubjectType => row.subjectType + 1 == key.first && key.second == 0 && key.third == 0
  }

  /** The bit a posting sets in its row's coverage; zero is no bit. */
  function CoverageBit(kind: IndexKind, row: Row, key: DiskKey): nat {
    if kind != Subject || key.third == 0 then 1
    else if row.subjectRelation.Some? && row.subjectRelation.value + 1 == key.third then 2
    else 0
  }

  /** The bits a complete index sets. */
  function ExpectedBits(kind: IndexKind, row: Row): set<nat> {
    match kind
    case Subject => if row.subjectRelation.Some? then {1, 2} else {1}
    case SubjectTypeRelation => if row.subjectRelation.Some? then {1} else {}
    case _ => {1}
  }

  lemma PostedKeyMatches(row: Row, key: IndexKey)
    requires key in KeysOf(row)
    ensures RowMatchesKey(KindOf(key), row, ToDisk(key))
  {
  }

  lemma MatchedKeyIsPosted(row: Row, key: IndexKey)
    requires RowMatchesKey(KindOf(key), row, ToDisk(key))
    ensures key in KeysOf(row)
  {
    var keys := KeysOf(row);
    match key
    case ByResource(_, _, _) => assert keys[0] == key;
    case ByResourceObject(_, _) => assert keys[1] == key;
    case ByResourceTypeRelation(_, _) => assert keys[2] == key;
    case ByResourceType(_) => assert keys[3] == key;
    case BySubject(_, _, _) => assert keys[4] == key || keys[5] == key;
    case BySubjectTypeRelation(_, _) => assert keys[6] == key;
    case BySubjectType(_) => assert keys[|keys| - 1] == key;
  }

  /** A disk key matches a row exactly if the row is posted under it. */
  lemma MatchesAreKeys(row: Row, key: IndexKey)
    ensures RowMatchesKey(KindOf(key), row, ToDisk(key)) <==> key in KeysOf(row)
  {
    hide KeysOf, RowMatchesKey;
    if key in KeysOf(row) {
      PostedKeyMatches(row, key);
    }
    if RowMatchesKey(KindOf(key), row, ToDisk(key)) {
      MatchedKeyIsPosted(row, key);
    }
  }

  /** A row's keys of one kind and its expected bits correspond one to one. */
  lemma BitsAreKeys(kind: IndexKind, row: Row, key: IndexKey)
    requires KindOf(key) == kind && key in KeysOf(row)
    ensures CoverageBit(kind, row, ToDisk(key)) in ExpectedBits(kind, row)
    ensures forall other: DiskKey ::
      RowMatchesKey(kind, row, other) && CoverageBit(kind, row, other) == CoverageBit(kind, row, ToDisk(key)) ==> other == ToDisk(key)
  {
    MatchesAreKeys(row, key);
  }

  // ---------------------------------------------------------------- coverage

  /** The postings read so far: typed keys in order, with their lists. */
  datatype Decoded = Decoded(key: IndexKey, rowIds: seq<nat>)

  ghost predicate Posts(read: seq<Decoded>, kind: IndexKind, row: Row, id: RowId, bit: nat) {
    exists k :: 0 <= k < |read| && id + 1 in read[k].rowIds && CoverageBit(kind, row, ToDisk(read[k].key)) == bit
  }

  /** Each row's coverage is what the postings read so far have set, and each posting fits its row. */
  ghost predicate Covered(read: seq<Decoded>, kind: IndexKind, rows: seq<Row>, coverage: seq<set<nat>>) {
    && |coverage| == |rows|
    && (forall id: RowId, bit: nat :: id < |rows| ==> (bit in coverage[id] <==> bit != 0 && Posts(read, kind, rows[id], id, bit)))
    && (forall k :: 0 <= k < |read| ==> Fitting(read[k], kind, rows))
  }

  ghost predicate Fitting(decoded: Decoded, kind: IndexKind, rows: seq<Row>) {
    && KindOf(decoded.key) == kind && ListValid(decoded.rowIds, |rows|)
    && forall i :: 0 <= i < |decoded.rowIds| ==> RowFits(decoded.rowIds[i], kind, rows, decoded.key)
  }

  ghost predicate RowFits(rowId: nat, kind: IndexKind, rows: seq<Row>, key: IndexKey) {
    && 0 < rowId <= |rows|
    && RowMatchesKey(kind, rows[rowId - 1], ToDisk(key)) && CoverageBit(kind, rows[rowId - 1], ToDisk(key)) != 0
  }

  ghost predicate KeysRise(read: seq<Decoded>) {
    forall i, j :: 0 <= i < j < |read| ==> KeyLess(read[i].key, read[j].key)
  }

  /** The row ids, counting from zero, that have a key. */
  ghost predicate ListsItsRows(decoded: Decoded, rows: seq<Row>) {
    && InRangeFromOne(decoded.rowIds)
    && FromZero(decoded.rowIds) == KeyRows(rows, decoded.key, |rows|)
  }

  ghost predicate InRangeFromOne(ids: seq<nat>) { forall i :: 0 <= i < |ids| ==> ids[i] > 0 }

  function FromZero(ids: seq<nat>): seq<RowId>
    requires InRangeFromOne(ids)
  {
    seq(|ids|, i requires 0 <= i < |ids| => ids[i] - 1)
  }

  lemma {:induction false} IncreasingIsAscending(previous: nat, ids: seq<nat>, i: nat, j: nat)
    requires Increasing(previous, ids) && i < j < |ids|
    ensures previous < ids[i] < ids[j]
    decreases |ids|
  {
    if i > 0 {
      IncreasingIsAscending(ids[0], ids[1..], i - 1, j - 1);
    } else if j > 1 {
      IncreasingIsAscending(ids[0], ids[1..], 0, j - 1);
    }
  }

  ghost predicate Ascends(ids: seq<RowId>) {
    forall i, j :: 0 <= i < j < |ids| ==> ids[i] < ids[j]
  }

  lemma ListAscends(ids: seq<nat>, rowCount: nat)
    requires ListValid(ids, rowCount)
    ensures InRangeFromOne(ids) && Ascends(FromZero(ids))
  {
    forall i, j | 0 <= i < j < |ids| ensures 0 < ids[i] < ids[j] {
      if i > 0 {
        IncreasingIsAscending(ids[0], ids[1..], i - 1, j - 1);
      } else if j > 1 {
        IncreasingIsAscending(ids[0], ids[1..], 0, j - 1);
      }
    }
    forall i | 0 <= i < |ids| ensures ids[i] > 0 {
      assert i > 0 ==> ids[0] < ids[i];
    }
  }

  lemma {:induction false} KeyRowsAscend(rows: seq<Row>, key: IndexKey, n: nat)
    requires n <= |rows|
    ensures Ascends(KeyRows(rows, key, n))
    ensures forall id: RowId :: id in KeyRows(rows, key, n) <==> id < n && key in KeysOf(rows[id])
  {
    hide KeysOf;
    if n > 0 {
      KeyRowsAscend(rows, key, n - 1);
      KeyRowsInRange(rows, key, n - 1);
    }
  }

  lemma {:induction false} AscendingIsUnique(left: seq<RowId>, right: seq<RowId>)
    requires Ascends(left) && Ascends(right) && forall id: RowId :: id in left <==> id in right
    ensures left == right
  {
    if left == [] {
      assert forall i :: 0 <= i < |right| ==> right[i] in right;
    } else {
      assert left[0] in right && right[0] in left;
      var i :| 0 <= i < |right| && right[i] == left[0];
      var j :| 0 <= j < |left| && left[j] == right[0];
      assert left[0] == right[0];
      WithoutHead(left);
      WithoutHead(right);
      AscendingIsUnique(left[1..], right[1..]);
      assert left == [left[0]] + left[1..] && right == [right[0]] + right[1..];
    }
  }

  lemma WithoutHead(ids: seq<RowId>)
    requires ids != [] && Ascends(ids)
    ensures Ascends(ids[1..]) && forall id: RowId :: id in ids[1..] <==> id in ids && id != ids[0]
  {
    forall id: RowId | id in ids[1..] ensures id in ids && id != ids[0] {
      var i :| 0 <= i < |ids[1..]| && ids[1..][i] == id;
      assert ids[i + 1] == id;
    }
    assert ids == [ids[0]] + ids[1..];
  }

  /** The final coverage check. */
  ghost predicate Complete(kind: IndexKind, rows: seq<Row>, coverage: seq<set<nat>>) {
    |coverage| == |rows| && forall id: RowId :: id < |rows| ==> coverage[id] == ExpectedBits(kind, rows[id])
  }

  /** Complete coverage leaves no row of a key out. */
  lemma KeyOfRowIsPosted(read: seq<Decoded>, kind: IndexKind, rows: seq<Row>, coverage: seq<set<nat>>, id: RowId, key: IndexKey) returns (k: nat)
    requires Covered(read, kind, rows, coverage) && Complete(kind, rows, coverage)
    requires id < |rows| && KindOf(key) == kind && key in KeysOf(rows[id])
    ensures k < |read| && read[k].key == key && id + 1 in read[k].rowIds
  {
    hide KeysOf, RowMatchesKey, ExpectedBits, ToDisk, CoverageBit, ListValid;
    BitsAreKeys(kind, rows[id], key);
    var bit := CoverageBit(kind, rows[id], ToDisk(key));
    assert bit in coverage[id];
    k :| 0 <= k < |read| && id + 1 in read[k].rowIds && CoverageBit(kind, rows[id], ToDisk(read[k].key)) == bit;
    var i :| 0 <= i < |read[k].rowIds| && read[k].rowIds[i] == id + 1;
    assert Fitting(read[k], kind, rows);
    assert RowFits(read[k].rowIds[i], kind, rows, read[k].key);
    assert ToDisk(read[k].key) == ToDisk(key);
    DiskOrderIsKeyOrder(read[k].key, key);
  }

  lemma CoveredListsAreExact(read: seq<Decoded>, kind: IndexKind, rows: seq<Row>, coverage: seq<set<nat>>, k: nat)
    requires Covered(read, kind, rows, coverage) && Complete(kind, rows, coverage) && KeysRise(read) && k < |read|
    ensures ListsItsRows(read[k], rows)
  {
    hide KeysOf, RowMatchesKey, ExpectedBits, ToDisk, CoverageBit, ListValid, KeyLess;
    var decoded := read[k];
    assert Fitting(decoded, kind, rows);
    ListAscends(decoded.rowIds, |rows|);
    KeyRowsAscend(rows, decoded.key, |rows|);
    var listed := FromZero(decoded.rowIds);
    forall id: RowId | id in listed ensures id in KeyRows(rows, decoded.key, |rows|) {
      var i :| 0 <= i < |listed| && listed[i] == id;
      assert RowFits(decoded.rowIds[i], kind, rows, decoded.key);
      MatchesAreKeys(rows[id], decoded.key);
    }
    forall id: RowId | id in KeyRows(rows, decoded.key, |rows|) ensures id in listed {
      var other := KeyOfRowIsPosted(read, kind, rows, coverage, id, decoded.key);
      SameKeySamePlace(read, k, other);
      var i :| 0 <= i < |decoded.rowIds| && decoded.rowIds[i] == id + 1;
      assert listed[i] == id;
    }
    AscendingIsUnique(listed, KeyRows(rows, decoded.key, |rows|));
  }

  lemma SameKeySamePlace(read: seq<Decoded>, i: nat, j: nat)
    requires KeysRise(read) && i < |read| && j < |read| && read[i].key == read[j].key
    ensures i == j
  {
  }

  /** What an accepted index lists: every key of its kind that a row has, with exactly its rows. */
  ghost predicate Exact(read: seq<Decoded>, kind: IndexKind, rows: seq<Row>) {
    && KeysRise(read)
    && (forall k :: 0 <= k < |read| ==> KindOf(read[k].key) == kind && ListsItsRows(read[k], rows))
    && (forall key: IndexKey :: KindOf(key) == kind && (forall k :: 0 <= k < |read| ==> read[k].key != key)
                                ==> KeyRows(rows, key, |rows|) == [])
  }

  lemma CompleteIsExact(read: seq<Decoded>, kind: IndexKind, rows: seq<Row>, coverage: seq<set<nat>>)
    requires Covered(read, kind, rows, coverage) && Complete(kind, rows, coverage) && KeysRise(read)
    ensures Exact(read, kind, rows)
  {
    hide KeysOf, KeyLess, Complete, ListsItsRows;
    forall k | 0 <= k < |read| ensures KindOf(read[k].key) == kind && ListsItsRows(read[k], rows) {
      assert Fitting(read[k], kind, rows);
      CoveredListsAreExact(read, kind, rows, coverage, k);
    }
    forall key: IndexKey | KindOf(key) == kind && (forall k :: 0 <= k < |read| ==> read[k].key != key)
      ensures KeyRows(rows, key, |rows|) == []
    {
      KeyRowsAscend(rows, key, |rows|);
      if KeyRows(rows, key, |rows|) != [] {
        var id := KeyRows(rows, key, |rows|)[0];
        assert id in KeyRows(rows, key, |rows|);
        var k := KeyOfRowIsPosted(read, kind, rows, coverage, id, key);
      }
    }
  }

  // ---------------------------------------------------------------- the decoder

  ghost predicate NothingElse(kind: IndexKind, rows: seq<Row>, key: DiskKey, rowIds: seq<nat>, before: seq<set<nat>>, after: seq<set<nat>>)
    requires |before| == |after| == |rows|
  {
    forall id: RowId :: id < |rows| ==>
      after[id] == if id + 1 in rowIds then before[id] + {CoverageBit(kind, rows[id], key)} else before[id]
  }

  lemma NothingElseYet(kind: IndexKind, rows: seq<Row>, key: DiskKey, before: seq<set<nat>>)
    requires |before| == |rows|
    ensures NothingElse(kind, rows, key, [], before, before)
  {
  }

  lemma CoverNext(kind: IndexKind, rows: seq<Row>, key: DiskKey, rowIds: seq<nat>, i: nat, before: seq<set<nat>>, marked: seq<set<nat>>)
    requires |before| == |marked| == |rows| && i < |rowIds| && 0 < rowIds[i] <= |rows|
    requires NothingElse(kind, rows, key, rowIds[..i], before, marked)
    ensures var at := rowIds[i] - 1;
            NothingElse(kind, rows, key, rowIds[..i + 1], before, marked[at := marked[at] + {CoverageBit(kind, rows[at], key)}])
  {
    hide CoverageBit;
    assert rowIds[..i + 1] == rowIds[..i] + [rowIds[i]];
    var at := rowIds[i] - 1;
    var next := marked[at := marked[at] + {CoverageBit(kind, rows[at], key)}];
    forall id: RowId | id < |rows|
      ensures next[id] == if id + 1 in rowIds[..i + 1] then before[id] + {CoverageBit(kind, rows[id], key)} else before[id]
    {
    }
  }

  /** Nothing stands against marking these rows. */
  ghost predicate Coverable(kind: IndexKind, rows: seq<Row>, key: DiskKey, rowIds: seq<nat>, coverage: seq<set<nat>>)
    requires |coverage| == |rows|
  {
    forall i :: 0 <= i < |rowIds| ==>
      && 0 < rowIds[i] <= |rows| && RowMatchesKey(kind, rows[rowIds[i] - 1], key)
      && CoverageBit(kind, rows[rowIds[i] - 1], key) != 0
      && CoverageBit(kind, rows[rowIds[i] - 1], key) !in coverage[rowIds[i] - 1]
  }

  /** Within one increasing list no row comes twice. */
  lemma NotYetMarked(kind: IndexKind, rows: seq<Row>, key: DiskKey, rowIds: seq<nat>, i: nat, before: seq<set<nat>>, marked: seq<set<nat>>)
    requires |before| == |marked| == |rows| && i < |rowIds| && ListValid(rowIds, |rows|) && 0 < rowIds[i] <= |rows|
    requires NothingElse(kind, rows, key, rowIds[..i], before, marked)
    ensures marked[rowIds[i] - 1] == before[rowIds[i] - 1]
  {
    hide CoverageBit;
    ListAscends(rowIds, |rows|);
    forall k | 0 <= k < i ensures rowIds[k] != rowIds[i] {
      assert FromZero(rowIds)[k] < FromZero(rowIds)[i];
    }
  }

  /** Checks the rows of one posting list against its key and marks them covered. */
  method CoverPosting(kind: IndexKind, rows: seq<Row>, key: DiskKey, rowIds: seq<nat>, coverage: array<set<nat>>) returns (r: Result<(), FormatError>)
    requires coverage.Length == |rows| && ListValid(rowIds, |rows|)
    modifies coverage
    ensures r.Ok? ==> NothingElse(kind, rows, key, rowIds, old(coverage[..]), coverage[..])
    ensures r.Ok? ==> forall i :: 0 <= i < |rowIds| ==>
      0 < rowIds[i] <= |rows| && RowMatchesKey(kind, rows[rowIds[i] - 1], key) && CoverageBit(kind, rows[rowIds[i] - 1], key) != 0
    ensures Coverable(kind, rows, key, rowIds, old(coverage[..])) ==> r.Ok?
  {
    hide RowMatchesKey, CoverageBit, ListValid, NothingElse;
    ghost var before := coverage[..];
    ListInBounds(rowIds, |rows|);
    NothingElseYet(kind, rows, key, before);
    assert rowIds[..0] == [];
    for i := 0 to |rowIds|
      invariant forall k :: 0 <= k < i ==>
        RowMatchesKey(kind, rows[rowIds[k] - 1], key) && CoverageBit(kind, rows[rowIds[k] - 1], key) != 0
      invariant NothingElse(kind, rows, key, rowIds[..i], before, coverage[..])
    {
      label Marking:
      var at := rowIds[i] - 1;
      if !RowMatchesKey(kind, rows[at], key) {
        return Err(RowDoesNotMatchKey);
      }
      var bit := CoverageBit(kind, rows[at], key);
      if bit == 0 {
        return Err(CoverageBitInvalid);
      }
      if bit in coverage[at] {
        NotYetMarked(kind, rows, key, rowIds, i, before, coverage[..]);
        return Err(DuplicatePosting);
      }
      CoverNext(kind, rows, key, rowIds, i, before, coverage[..]);
      coverage[at] := coverage[at] + {bit};
      assert coverage[..] == old@Marking(coverage[..])[at := old@Marking(coverage[at]) + {bit}];
    }
    assert rowIds[..|rowIds|] == rowIds;
    r := Ok(());
  }

  lemma ListInBounds(ids: seq<nat>, rowCount: nat)
    requires ListValid(ids, rowCount)
    ensures ids != [] && forall i :: 0 <= i < |ids| ==> 0 < ids[i] <= rowCount
  {
    ListAscends(ids, rowCount);
  }

  lemma CoveredExtends(read: seq<Decoded>, kind: IndexKind, rows: seq<Row>, before: seq<set<nat>>, after: seq<set<nat>>, next: Decoded)
    requires Covered(read, kind, rows, before) && |after| == |rows| && KindOf(next.key) == kind && ListValid(next.rowIds, |rows|)
    requires NothingElse(kind, rows, ToDisk(next.key), next.rowIds, before, after)
    requires forall i :: 0 <= i < |next.rowIds| ==> RowFits(next.rowIds[i], kind, rows, next.key)
    ensures Covered(read + [next], kind, rows, after)
  {
    hide RowMatchesKey, CoverageBit, ListValid, ToDisk;
    var all := read + [next];
    forall id: RowId, bit: nat | id < |rows| ensures bit in after[id] <==> bit != 0 && Posts(all, kind, rows[id], id, bit) {
      if id + 1 in next.rowIds {
        var i :| 0 <= i < |next.rowIds| && next.rowIds[i] == id + 1;
        assert RowFits(next.rowIds[i], kind, rows, next.key);
      }
      if Posts(read, kind, rows[id], id, bit) {
        var k :| 0 <= k < |read| && id + 1 in read[k].rowIds && CoverageBit(kind, rows[id], ToDisk(read[k].key)) == bit;
        assert all[k] == read[k];
      }
      if Posts(all, kind, rows[id], id, bit) && bit !in before[id] {
        var k :| 0 <= k < |all| && id + 1 in all[k].rowIds && CoverageBit(kind, rows[id], ToDisk(all[k].key)) == bit;
        assert k == |read|;
      }
      if id + 1 in next.rowIds && CoverageBit(kind, rows[id], ToDisk(next.key)) == bit {
        assert all[|read|] == next;
      }
    }
  }

  /** The runtime form of what has been read: keys, ranges and one list of the rows after the first. */
  ghost predicate Stored(read: seq<Decoded>, keys: seq<IndexKey>, ranges: seq<PostingRange>, rest: seq<RowId>) {
    && |keys| == |ranges| == |read|
    && forall k :: 0 <= k < |read| ==>
         keys[k] == read[k].key && InRangeFromOne(read[k].rowIds) && RangeRows(ranges[k], rest) == FromZero(read[k].rowIds)
         && ranges[k].overflowStart + ranges[k].overflowLen <= |rest|
  }

  lemma StoredExtends(read: seq<Decoded>, keys: seq<IndexKey>, ranges: seq<PostingRange>, rest: seq<RowId>, next: Decoded)
    requires Stored(read, keys, ranges, rest) && InRangeFromOne(next.rowIds) && next.rowIds != []
    ensures var ids := FromZero(next.rowIds);
            Stored(read + [next], keys + [next.key], ranges + [PostingRange(ids[0], |rest|, |ids| - 1)], rest + ids[1..])
  {
    var ids := FromZero(next.rowIds);
    var grown := rest + ids[1..];
    assert grown[|rest|..|rest| + |ids| - 1] == ids[1..];
    assert [ids[0]] + ids[1..] == ids;
    forall k | 0 <= k < |read| ensures RangeRows(ranges[k], grown) == RangeRows(ranges[k], rest) {
      var start, end := ranges[k].overflowStart, ranges[k].overflowStart + ranges[k].overflowLen;
      assert grown[start..end] == rest[start..end];
    }
  }

  // ---------------------------------------------------------------- what is certainly accepted

  ghost predicate EntryFaithful(kind: IndexKind, entry: DiskEntry, postings: seq<byte>, rows: seq<Row>, symbolCount: nat) {
    var key, list := KeyFromDisk(kind, entry.key, symbolCount), PostingList(entry.range, postings, |rows|);
    key.Ok? && list.Ok? && ListsItsRows(Decoded(key.value, list.value), rows)
  }

  /** The entries list exactly the rows of every key of the kind. */
  ghost predicate Faithful(kind: IndexKind, entries: seq<DiskEntry>, postings: seq<byte>, rows: seq<Row>, symbolCount: nat) {
    && (forall i :: 0 <= i < |entries| ==> EntryFaithful(kind, entries[i], postings, rows, symbolCount))
    && forall key: IndexKey :: KindOf(key) == kind && KeyRows(rows, key, |rows|) != [] ==>
         exists i :: 0 <= i < |entries| && entries[i].key == ToDisk(key)
  }

  /** The rows of a faithful entry match its key and have not been marked for it before. */
  lemma FaithfulIsCoverable(kind: IndexKind, entries: seq<DiskEntry>, i: nat, read: seq<Decoded>, rows: seq<Row>, coverage: seq<set<nat>>, next: Decoded)
    requires KeysAscend(entries) && i < |entries| && |read| == i && Covered(read, kind, rows, coverage)
    requires forall k :: 0 <= k < i ==> ToDisk(read[k].key) == entries[k].key
    requires KindOf(next.key) == kind && ToDisk(next.key) == entries[i].key && ListsItsRows(next, rows)
    ensures Coverable(kind, rows, entries[i].key, next.rowIds, coverage)
  {
    hide RowMatchesKey, ToDisk, KeysOf, KeyBelow, ExpectedBits, CoverageBit, ListValid;
    KeyRowsAscend(rows, next.key, |rows|);
    forall m | 0 <= m < |next.rowIds|
      ensures 0 < next.rowIds[m] <= |rows| && RowMatchesKey(kind, rows[next.rowIds[m] - 1], entries[i].key)
              && CoverageBit(kind, rows[next.rowIds[m] - 1], entries[i].key) != 0
              && CoverageBit(kind, rows[next.rowIds[m] - 1], entries[i].key) !in coverage[next.rowIds[m] - 1]
    {
      var id := next.rowIds[m] - 1;
      assert FromZero(next.rowIds)[m] == id;
      assert id in KeyRows(rows, next.key, |rows|);
      MatchesAreKeys(rows[id], next.key);
      BitsAreKeys(kind, rows[id], next.key);
      BitsAreNonzero(kind, rows[id]);
      NotPostedBefore(kind, entries, i, read, rows, coverage, next.key, id);
    }
  }

  lemma BitsAreNonzero(kind: IndexKind, row: Row)
    ensures 0 !in ExpectedBits(kind, row)
  {
  }

  lemma NotPostedBefore(kind: IndexKind, entries: seq<DiskEntry>, i: nat, read: seq<Decoded>, rows: seq<Row>, coverage: seq<set<nat>>, key: IndexKey, id: RowId)
    requires KeysAscend(entries) && i < |entries| && |read| == i && Covered(read, kind, rows, coverage) && id < |rows|
    requires forall k :: 0 <= k < i ==> ToDisk(read[k].key) == entries[k].key
    requires KindOf(key) == kind && ToDisk(key) == entries[i].key && key in KeysOf(rows[id])
    ensures CoverageBit(kind, rows[id], ToDisk(key)) !in coverage[id]
  {
    hide RowMatchesKey, ToDisk, KeysOf, KeyBelow, ExpectedBits, CoverageBit, ListValid;
    BitsAreKeys(kind, rows[id], key);
    var bit := CoverageBit(kind, rows[id], ToDisk(key));
    if bit in coverage[id] {
      var k :| 0 <= k < |read| && id + 1 in read[k].rowIds && CoverageBit(kind, rows[id], ToDisk(read[k].key)) == bit;
      var m :| 0 <= m < |read[k].rowIds| && read[k].rowIds[m] == id + 1;
      assert Fitting(read[k], kind, rows) && RowFits(read[k].rowIds[m], kind, rows, read[k].key);
      assert entries[k].key == entries[i].key;
      KeysCompare(entries[k].key, entries[i].key);
    }
  }

  lemma {:induction false} FaithfulIsComplete(kind: IndexKind, entries: seq<DiskEntry>, postings: seq<byte>, read: seq<Decoded>, rows: seq<Row>,
                                              symbolCount: nat, coverage: seq<set<nat>>)
    requires Faithful(kind, entries, postings, rows, symbolCount) && Covered(read, kind, rows, coverage) && |read| == |entries|
    requires forall k :: 0 <= k < |read| ==> ToDisk(read[k].key) == entries[k].key && KindOf(read[k].key) == kind && ListsItsRows(read[k], rows)
    ensures Complete(kind, rows, coverage)
  {
    hide RowMatchesKey, ToDisk, KeysOf, CoverageBit, ListValid, ListsItsRows, EntryFaithful, KeyRows;
    forall id: RowId | id < |rows| ensures coverage[id] == ExpectedBits(kind, rows[id]) {
      forall bit: nat ensures bit in coverage[id] <==> bit in ExpectedBits(kind, rows[id]) {
        if bit in coverage[id] {
          var k :| 0 <= k < |read| && id + 1 in read[k].rowIds && CoverageBit(kind, rows[id], ToDisk(read[k].key)) == bit;
          var m :| 0 <= m < |read[k].rowIds| && read[k].rowIds[m] == id + 1;
          assert Fitting(read[k], kind, rows) && RowFits(read[k].rowIds[m], kind, rows, read[k].key);
          MatchesAreKeys(rows[id], read[k].key);
          BitsAreKeys(kind, rows[id], read[k].key);
        }
        if bit in ExpectedBits(kind, rows[id]) {
          var key := KeyOfBit(kind, rows[id], bit);
          PostedByFaithful(kind, entries, postings, read, rows, symbolCount, id, key, bit);
        }
      }
    }
  }

  lemma PostedByFaithful(kind: IndexKind, entries: seq<DiskEntry>, postings: seq<byte>, read: seq<Decoded>, rows: seq<Row>, symbolCount: nat,
                         id: RowId, key: IndexKey, bit: nat)
    requires Faithful(kind, entries, postings, rows, symbolCount) && |read| == |entries| && id < |rows|
    requires forall k :: 0 <= k < |read| ==> ToDisk(read[k].key) == entries[k].key && KindOf(read[k].key) == kind && ListsItsRows(read[k], rows)
    requires KindOf(key) == kind && key in KeysOf(rows[id]) && CoverageBit(kind, rows[id], ToDisk(key)) == bit
    ensures Posts(read, kind, rows[id], id, bit)
  {
    hide RowMatchesKey, ToDisk, KeysOf, CoverageBit, ListValid, EntryFaithful, KeyRows;
    KeyRowsAscend(rows, key, |rows|);
    assert id in KeyRows(rows, key, |rows|);
    var k :| 0 <= k < |entries| && entries[k].key == ToDisk(key);
    DiskOrderIsKeyOrder(read[k].key, key);
    var m :| 0 <= m < |FromZero(read[k].rowIds)| && FromZero(read[k].rowIds)[m] == id;
    assert read[k].rowIds[m] == id + 1;
  }

  /** Every expected bit belongs to a key of the row. */
  lemma KeyOfBit(kind: IndexKind, row: Row, bit: nat) returns (key: IndexKey)
    requires bit in ExpectedBits(kind, row)
    ensures KindOf(key) == kind && key in KeysOf(row) && CoverageBit(kind, row, ToDisk(key)) == bit
  {
    match kind
    case Resource => key := ByResource(row.resourceType, row.resourceId, row.relation);
    case ResourceObject => key := ByResourceObject(row.resourceType, row.resourceId);
    case ResourceTypeRelation => key := ByResourceTypeRelation(row.resourceType, row.relation);
    case ResourceType => key := ByResourceType(row.resourceType);
    case Subject => key := BySubject(row.subjectType, row.subjectId, if bit == 2 then row.subjectRelation else None);
    case SubjectTypeRelation => key := BySubjectTypeRelation(row.subjectType, row.subjectRelation.value);
    case SubjectType => key := BySubjectType(row.subjectType);
    MatchedKeyIsPosted(row, key);
  }

  /** Reads the entries of one index. It refuses postings that are out of range, repeat, or do not match
      their key, and in the end any row left uncovered, so that what it accepts answers every key of the
      kind with exactly the rows that have it; an index the profile does not require must be empty. */
  method DecodeIndex(kind: IndexKind, entries: seq<DiskEntry>, postings: seq<byte>, rows: seq<Row>, symbolCount: nat, required: bool)
    returns (r: Result<PostingIndex<IndexKey>, FormatError>)
    requires KeysAscend(entries)
    ensures r.Ok? ==> fresh(r.value) && r.value.Valid() && r.value.less == KeyLess
    ensures r.Ok? ==> SortedWithin(kind, r.value.table) && TotalOverflow(r.value.table.ranges) == |r.value.table.rest|
    ensures r.Ok? ==> forall key: IndexKey ::
      r.value.Listed(key) == if required && KindOf(key) == kind then KeyRows(rows, key, |rows|) else []
    ensures required && Faithful(kind, entries, postings, rows, symbolCount) ==> r.Ok?
  {
    hide RowMatchesKey, CoverageBit, ToDisk, KeysOf, KeyLess, KeyBelow, KeyFromDisk, PostingList, KeyRows, ExpectedBits, ListValid;
    hide Covered, Stored, KeysRise, NothingElse, ListsItsRows, Coverable, Complete, TotalOverflow;
    ghost var faithful := Faithful(kind, entries, postings, rows, symbolCount);
    var coverage := new set<nat>[|rows|](_ => {});
    ghost var read: seq<Decoded> := [];
    var keys: seq<IndexKey>, ranges: seq<PostingRange>, rest: seq<RowId> := [], [], [];
    NothingYet(kind, rows, coverage[..]);
    assert TotalOverflow([]) == 0 by { NoOverflow(); }
    for i := 0 to |entries|
      invariant fresh(coverage) && coverage.Length == |rows|
      invariant Covered(read, kind, rows, coverage[..]) && Stored(read, keys, ranges, rest)
      invariant TotalOverflow(ranges) == |rest|
      invariant |read| == i && forall k :: 0 <= k < i ==> ToDisk(read[k].key) == entries[k].key
      invariant faithful ==> forall k :: 0 <= k < i ==> KindOf(read[k].key) == kind && ListsItsRows(read[k], rows)
    {
      assert faithful ==> EntryFaithful(kind, entries[i], postings, rows, symbolCount);
      var key :- KeyFromDisk(kind, entries[i].key, symbolCount);
      KeyFromDiskIsInverse(kind, entries[i].key, symbolCount);
      var rowIds :- DecodePostingList(entries[i].range, postings, |rows|);
      PostingListIsValid(entries[i].range, postings, |rows|);
      ghost var before := coverage[..];
      if faithful {
        FaithfulIsCoverable(kind, entries, i, read, rows, before, Decoded(key, rowIds));
      }
      var _ :- CoverPosting(kind, rows, entries[i].key, rowIds, coverage);
      ListAscends(rowIds, |rows|);
      ListInBounds(rowIds, |rows|);
      CoveredExtends(read, kind, rows, before, coverage[..], Decoded(key, rowIds));
      StoredExtends(read, keys, ranges, rest, Decoded(key, rowIds));
      var ids := FromZero(rowIds);
      OneMoreRange(ranges, PostingRange(ids[0], |rest|, |ids| - 1));
      keys, ranges, rest := keys + [key], ranges + [PostingRange(ids[0], |rest|, |ids| - 1)], rest + ids[1..];
      read := read + [Decoded(key, rowIds)];
    }
    if faithful {
      FaithfulIsComplete(kind, entries, postings, read, rows, symbolCount, coverage[..]);
    }
    var _ :- CheckCoverage(kind, rows, required, coverage);
    KindsAreOne(read, kind, rows, coverage[..]);
    RisesWithEntries(read, entries, kind);
    KeysAreOrdered();
    if required {
      CompleteIsExact(read, kind, rows, coverage[..]);
    } else {
      NothingRead(read, kind, rows, coverage[..]);
    }
    StoredAscends(read, keys, ranges, rest);
    StoredWithin(kind, read, keys, ranges, rest);
    var index := new PostingIndex<IndexKey>.FromSorted(KeyLess, keys, ranges, rest);
    forall key: IndexKey ensures index.Listed(key) == if required && KindOf(key) == kind then KeyRows(rows, key, |rows|) else [] {
      StoredListsExactly(read, keys, ranges, rest, kind, rows, required, key);
    }
    r := Ok(index);
  }

  /** A sorted table of keys of one kind, each range within the table. */
  ghost predicate SortedWithin(kind: IndexKind, table: PostingTable<IndexKey>) {
    && table.Sorted? && |table.keys| == |table.ranges|
    && (forall k :: 0 <= k < |table.keys| ==> KindOf(table.keys[k]) == kind)
    && (forall k :: 0 <= k < |table.ranges| ==> table.ranges[k].overflowStart + table.ranges[k].overflowLen <= |table.rest|)
  }

  lemma StoredWithin(kind: IndexKind, read: seq<Decoded>, keys: seq<IndexKey>, ranges: seq<PostingRange>, rest: seq<RowId>)
    requires Stored(read, keys, ranges, rest) && forall k :: 0 <= k < |read| ==> KindOf(read[k].key) == kind
    ensures SortedWithin(kind, Sorted(keys, ranges, rest))
  {
  }

  lemma NoOverflow()
    ensures TotalOverflow([]) == 0
  {
  }

  lemma OneMoreRange(ranges: seq<PostingRange>, last: PostingRange)
    ensures TotalOverflow(ranges + [last]) == TotalOverflow(ranges) + last.overflowLen
  {
    assert (ranges + [last])[..|ranges|] == ranges;
  }

  lemma NothingYet(kind: IndexKind, rows: seq<Row>, coverage: seq<set<nat>>)
    requires |coverage| == |rows| && forall id: RowId :: id < |rows| ==> coverage[id] == {}
    ensures Covered([], kind, rows, coverage) && Stored([], [], [], [])
  {
  }

  lemma StoredAscends(read: seq<Decoded>, keys: seq<IndexKey>, ranges: seq<PostingRange>, rest: seq<RowId>)
    requires Stored(read, keys, ranges, rest) && KeysRise(read)
    ensures Ascending(KeyLess, keys) && |ranges| == |keys|
  {
    hide KeyLess;
  }

  lemma StoredListsExactly(read: seq<Decoded>, keys: seq<IndexKey>, ranges: seq<PostingRange>, rest: seq<RowId>,
                           kind: IndexKind, rows: seq<Row>, required: bool, key: IndexKey)
    requires Stored(read, keys, ranges, rest) && (if required then Exact(read, kind, rows) else read == [])
    ensures |ranges| == |keys|
    ensures forall k :: 0 <= k < |keys| && keys[k] == key ==> required && KindOf(key) == kind && RangeRows(ranges[k], rest) == KeyRows(rows, key, |rows|)
    ensures required && KindOf(key) == kind && key !in keys ==> KeyRows(rows, key, |rows|) == []
  {
    hide KeyLess, RangeRows, KeyRows;
    forall k | 0 <= k < |keys| && keys[k] == key
      ensures required && KindOf(key) == kind && RangeRows(ranges[k], rest) == KeyRows(rows, key, |rows|)
    {
      assert read[k].key == key;
      assert ListsItsRows(read[k], rows);
    }
    if required && KindOf(key) == kind && key !in keys {
      forall k | 0 <= k < |read| ensures read[k].key != key {
        assert keys[k] == read[k].key;
      }
    }
  }

  /** Every row must have exactly the bits it needs; none if the index is not required. */
  method CheckCoverage(kind: IndexKind, rows: seq<Row>, required: bool, coverage: array<set<nat>>) returns (r: Result<(), FormatError>)
    requires coverage.Length == |rows|
    ensures required ==> (r.Ok? <==> Complete(kind, rows, coverage[..]))
    ensures r.Ok? && !required ==> forall id: RowId :: id < |rows| ==> coverage[id] == {}
  {
    hide ExpectedBits;
    for i := 0 to |rows|
      invariant forall id: RowId :: id < i ==> coverage[id] == if required then ExpectedBits(kind, rows[id]) else {}
    {
      if coverage[i] != (if required then ExpectedBits(kind, rows[i]) else {}) {
        return Err(IndexIncomplete);
      }
    }
    r := Ok(());
  }

  lemma KindsAreOne(read: seq<Decoded>, kind: IndexKind, rows: seq<Row>, coverage: seq<set<nat>>)
    requires Covered(read, kind, rows, coverage)
    ensures forall k :: 0 <= k < |read| ==> KindOf(read[k].key) == kind
  {
    forall k | 0 <= k < |read| ensures KindOf(read[k].key) == kind {
      assert Fitting(read[k], kind, rows);
    }
  }

  lemma RisesWithEntries(read: seq<Decoded>, entries: seq<DiskEntry>, kind: IndexKind)
    requires KeysAscend(entries) && |read| == |entries|
    requires forall k :: 0 <= k < |read| ==> ToDisk(read[k].key) == entries[k].key && KindOf(read[k].key) == kind
    ensures KeysRise(read)
  {
    hide KeyBelow, KeyLess, ToDisk;
    forall i, j | 0 <= i < j < |read| ensures KeyLess(read[i].key, read[j].key) {
      assert KeyBelow(entries[i].key, entries[j].key);
      DiskOrderIsKeyOrder(read[i].key, read[j].key);
    }
  }

  lemma NothingRead(read: seq<Decoded>, kind: IndexKind, rows: seq<Row>, coverage: seq<set<nat>>)
    requires Covered(read, kind, rows, coverage) && forall id: RowId :: id < |rows| ==> coverage[id] == {}
    ensures read == []
  {
    if read != [] {
      assert Fitting(read[0], kind, rows);
      ListInBounds(read[0].rowIds, |rows|);
      var id := read[0].rowIds[0] - 1;
      assert RowFits(read[0].rowIds[0], kind, rows, read[0].key);
      assert Posts(read, kind, rows[id], id, CoverageBit(kind, rows[id], ToDisk(read[0].key)));
    }
  }
}
