/** Posting lists: from an index key to the rows that have it, in row order. Built up in hash tables, or
    loaded as a sorted key array with ranges; both forms answer alike. */
module PostingIndex {
  import opened Vocabulary
  import opened IdentityIndex

  /** The first row of a key, and where the others lie. */
  datatype PostingRange = PostingRange(firstRowId: RowId, overflowStart: nat, overflowLen: nat)

  datatype PostingTable<K> =
    | Hashed(primary: map<K, RowId>, overflow: map<K, seq<RowId>>)
    | Sorted(keys: seq<K>, ranges: seq<PostingRange>, rest: seq<RowId>)

  function OverflowSlice(range: PostingRange, rest: seq<RowId>): Option<seq<RowId>> {
    if range.overflowLen == 0 then None
    else if range.overflowStart + range.overflowLen <= |rest| then Some(rest[range.overflowStart..range.overflowStart + range.overflowLen])
    else None
  }

  function RangeRows(range: PostingRange, rest: seq<RowId>): seq<RowId> {
    match OverflowSlice(range, rest)
    case Some(others) => [range.firstRowId] + others
    case None => [range.firstRowId]
  }

  /** The rows after the first, all ranges together. */
  function TotalOverflow(ranges: seq<PostingRange>): nat {
    if ranges == [] then 0 else TotalOverflow(ranges[..|ranges| - 1]) + ranges[|ranges| - 1].overflowLen
  }

  ghost function HashedRows<K(!new)>(primary: map<K, RowId>, overflow: map<K, seq<RowId>>, key: K): seq<RowId> {
    (if key in primary then [primary[key]] else []) + (if key in overflow then overflow[key] else [])
  }

  ghost predicate StrictOrder<K(!new)>(less: (K, K) -> bool) {
    && (forall a: K :: !less(a, a))
    && (forall a: K, b: K :: a != b ==> less(a, b) || less(b, a))
    && (forall a: K, b: K, c: K :: less(a, b) && less(b, c) ==> less(a, c))
  }

  ghost predicate Ascending<K(!new)>(less: (K, K) -> bool, keys: seq<K>) {
    forall i, j :: 0 <= i < j < |keys| ==> less(keys[i], keys[j])
  }

  ghost predicate TableValid<K(!new)>(less: (K, K) -> bool, table: PostingTable<K>) {
    match table
    case Hashed(primary, overflow) => overflow.Keys <= primary.Keys
    case Sorted(keys, ranges, _) => |ranges| == |keys| && Ascending(less, keys)
  }

  /** The rows listed for a key. */
  ghost function ListedIn<K(!new)>(less: (K, K) -> bool, table: PostingTable<K>, key: K): seq<RowId>
    requires StrictOrder(less) && TableValid(less, table)
  {
    match table
    case Hashed(primary, overflow) => HashedRows(primary, overflow, key)
    case Sorted(keys, ranges, rest) =>
      if exists i :: 0 <= i < |keys| && keys[i] == key then
        var i :| 0 <= i < |keys| && keys[i] == key; RangeRows(ranges[i], rest)
      else []
  }

  /** The first `n` keys have been moved into the hash tables. */
  ghost predicate Rehashed<K(!new)>(keys: seq<K>, ranges: seq<PostingRange>, rest: seq<RowId>,
                                    primary: map<K, RowId>, overflow: map<K, seq<RowId>>, n: nat) {
    && n <= |keys| == |ranges| && overflow.Keys <= primary.Keys
    && (forall key :: key in primary ==> exists k :: 0 <= k < n && keys[k] == key)
    && (forall k :: 0 <= k < n ==> HashedRows(primary, overflow, keys[k]) == RangeRows(ranges[k], rest))
  }

  lemma NothingRehashed<K(!new)>(keys: seq<K>, ranges: seq<PostingRange>, rest: seq<RowId>)
    requires |keys| == |ranges|
    ensures Rehashed(keys, ranges, rest, map[], map[], 0)
  {
  }

  /** The overflow lists after the list of one more key has been moved. */
  function WithOverflow<K>(overflow: map<K, seq<RowId>>, key: K, others: Option<seq<RowId>>): map<K, seq<RowId>> {
    if others.Some? then overflow[key := others.value] else overflow
  }

  lemma RehashNext<K(!new)>(less: (K, K) -> bool, keys: seq<K>, ranges: seq<PostingRange>, rest: seq<RowId>,
                            primary: map<K, RowId>, overflow: map<K, seq<RowId>>, n: nat)
    requires StrictOrder(less) && Ascending(less, keys)
    requires Rehashed(keys, ranges, rest, primary, overflow, n) && n < |keys|
    ensures Rehashed(keys, ranges, rest, primary[keys[n] := ranges[n].firstRowId],
                     WithOverflow(overflow, keys[n], OverflowSlice(ranges[n], rest)), n + 1)
  {
    hide OverflowSlice;
    forall k | 0 <= k < n ensures keys[k] != keys[n] {
      assert less(keys[k], keys[n]);
    }
  }

  lemma RehashedIsAlike<K(!new)>(less: (K, K) -> bool, keys: seq<K>, ranges: seq<PostingRange>, rest: seq<RowId>,
                                 primary: map<K, RowId>, overflow: map<K, seq<RowId>>)
    requires StrictOrder(less) && TableValid(less, Sorted(keys, ranges, rest))
    requires Rehashed(keys, ranges, rest, primary, overflow, |keys|)
    ensures TableValid(less, Hashed(primary, overflow))
    ensures forall key: K :: ListedIn(less, Hashed(primary, overflow), key) == ListedIn(less, Sorted(keys, ranges, rest), key)
  {
    hide RangeRows;
  }

  class PostingIndex<K(==,!new)> {
    const less: (K, K) -> bool
    var table: PostingTable<K>

    ghost predicate Valid()
      reads this
    {
      StrictOrder(less) && TableValid(less, table)
    }

    constructor (less: (K, K) -> bool)
      requires StrictOrder(less)
      ensures Valid() && this.less == less && forall key: K :: Listed(key) == []
    {
      this.less := less;
      table := Hashed(map[], map[]);
    }

    constructor FromSorted(less: (K, K) -> bool, keys: seq<K>, ranges: seq<PostingRange>, rest: seq<RowId>)
      requires StrictOrder(less) && Ascending(less, keys) && |ranges| == |keys|
      ensures Valid() && this.less == less && table == Sorted(keys, ranges, rest)
      ensures forall i :: 0 <= i < |keys| ==> Listed(keys[i]) == RangeRows(ranges[i], rest)
      ensures forall key: K :: key !in keys ==> Listed(key) == []
    {
      this.less := less;
      table := Sorted(keys, ranges, rest);
    }

    ghost function Listed(key: K): seq<RowId>
      requires Valid()
      reads this
    {
      ListedIn(less, table, key)
    }

    method Candidates(key: K) returns (r: seq<RowId>)
      requires Valid()
      ensures r == Listed(key)
    {
      match table
      case Hashed(primary, overflow) =>
        // An overflow list only ever backs up a first row.
        if key !in primary {
          r := [];
        } else if key in overflow {
          r := [primary[key]] + overflow[key];
        } else {
          r := [primary[key]];
        }
      case Sorted(keys, ranges, rest) =>
        var at := BinarySearch(keys, key);
        r := if at.Some? then RangeRows(ranges[at.value], rest) else [];
    }

    method BinarySearch(keys: seq<K>, key: K) returns (at: Option<nat>)
      requires Valid() && Ascending(less, keys)
      ensures at.Some? ==> at.value < |keys| && keys[at.value] == key
      ensures at.None? ==> key !in keys
    {
      var low, high := 0, |keys|;
      while low < high
        invariant low <= high <= |keys|
        invariant forall i :: 0 <= i < low ==> keys[i] != key
        invariant forall i :: high <= i < |keys| ==> keys[i] != key
      {
        var middle := (low + high) / 2;
        if keys[middle] == key {
          return Some(middle);
        } else if less(keys[middle], key) {
          low := middle + 1;
        } else {
          high := middle;
        }
      }
      at := None;
    }

    /** Turns the sorted form into hash tables; the lists stay the same. */
    method EnsureHashProfile()
      requires Valid()
      modifies this
      ensures Valid() && table.Hashed? && forall key: K :: Listed(key) == old(Listed(key))
    {
      if table.Hashed? {
        return;
      }
      hide Rehashed, ListedIn, OverflowSlice, StrictOrder;
      var keys, ranges, rest := table.keys, table.ranges, table.rest;
      var primary: map<K, RowId>, overflow: map<K, seq<RowId>> := map[], map[];
      assert Rehashed(keys, ranges, rest, primary, overflow, 0) by { NothingRehashed(keys, ranges, rest); }
      for i := 0 to |keys|
        invariant Rehashed(keys, ranges, rest, primary, overflow, i)
      {
        RehashNext(less, keys, ranges, rest, primary, overflow, i);
        primary := primary[keys[i] := ranges[i].firstRowId];
        var others := OverflowSlice(ranges[i], rest);
        if others.Some? {
          overflow := overflow[keys[i] := others.value];
        }
      }
      RehashedIsAlike(less, keys, ranges, rest, primary, overflow);
      table := Hashed(primary, overflow);
    }

    /** Appends a row to the list of a key. */
    method Insert(key: K, row: RowId)
      requires Valid()
      modifies this
      ensures Valid()
      ensures forall other: K :: Listed(other) == old(Listed(other)) + if other == key then [row] else []
    {
      EnsureHashProfile();
      if key in table.primary {
        table := table.(overflow := table.overflow[key := (if key in table.overflow then table.overflow[key] else []) + [row]]);
      } else {
        table := table.(primary := table.primary[key := row]);
      }
    }

    method Clone() returns (copy: PostingIndex<K>)
      requires Valid()
      ensures fresh(copy) && copy.less == less && copy.table == table && copy.Valid()
      ensures forall key: K :: copy.Listed(key) == Listed(key)
    {
      copy := new PostingIndex<K>(less);
      copy.table := table;
    }
  }
}
