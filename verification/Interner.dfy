/** The identifier interner: strings to dense ids and back, for any hash function. Ids count from zero, one
    less than they are stored; identifiers are ASCII, so a character is a byte. */
module Interner {
  import opened Vocabulary

  const MAX_U32 := 0xFFFF_FFFF

  type SymbolId = nat

  /** A hash function the proofs know nothing about: it may collide at will. */
  type Hasher = string -> nat

  datatype InternedString = InternedString(start: nat, len: nat)

  datatype InternError = CapacityExceeded(component: string) | Format(reason: string)

  ghost predicate Fits(bytes: string, entries: seq<InternedString>) {
    forall i :: 0 <= i < |entries| ==> entries[i].start + entries[i].len <= |bytes|
  }

  function NameIn(bytes: string, entry: InternedString): string
    requires entry.start + entry.len <= |bytes|
  {
    bytes[entry.start..entry.start + entry.len]
  }

  /** The interned strings, by id. */
  ghost function NamesOf(bytes: string, entries: seq<InternedString>): seq<string>
    requires Fits(bytes, entries)
  {
    seq(|entries|, i requires 0 <= i < |entries| => NameIn(bytes, entries[i]))
  }

  ghost predicate NoRepeats(names: seq<string>) {
    forall i, j :: 0 <= i < j < |names| ==> names[i] != names[j]
  }

  /** The hash tables lead to every interned string. Entries left behind by a failed intern are harmless. */
  ghost predicate TablesFind(hash: Hasher, names: seq<string>, idsByHash: map<nat, SymbolId>, collisions: map<nat, seq<SymbolId>>) {
    forall id :: 0 <= id < |names| ==> TableFinds(hash(names[id]), id, idsByHash, collisions)
  }

  ghost predicate TableFinds(hashed: nat, id: SymbolId, idsByHash: map<nat, SymbolId>, collisions: map<nat, seq<SymbolId>>) {
    (hashed in idsByHash && idsByHash[hashed] == id) || (hashed in collisions && id in collisions[hashed])
  }

  predicate Precedes(leftHash: nat, left: SymbolId, rightHash: nat, right: SymbolId) {
    leftHash < rightHash || (leftHash == rightHash && left < right)
  }

  /** `sorted` lists every id once, in order of hash and then id. */
  ghost predicate SortedFinds(hash: Hasher, names: seq<string>, hashes: seq<nat>, sorted: seq<SymbolId>) {
    && HashesMatch(hash, names, hashes)
    && InOrder(hashes, sorted)
    && (forall id :: 0 <= id < |names| ==> id in sorted)
  }

  ghost predicate HashesMatch(hash: Hasher, names: seq<string>, hashes: seq<nat>) {
    |hashes| == |names| && forall id :: 0 <= id < |names| ==> hashes[id] == hash(names[id])
  }

  ghost predicate InOrder(hashes: seq<nat>, sorted: seq<SymbolId>) {
    && (forall k :: 0 <= k < |sorted| ==> sorted[k] < |hashes|)
    && (forall j, k :: 0 <= j < k < |sorted| ==> Precedes(hashes[sorted[j]], sorted[j], hashes[sorted[k]], sorted[k]))
  }

  /** The first position of a sorted list that is not before `(hashed, id)`. */
  method LowerBound(hashes: seq<nat>, sorted: seq<SymbolId>, hashed: nat, id: SymbolId) returns (k: nat)
    requires InOrder(hashes, sorted)
    ensures k <= |sorted|
    ensures forall j :: 0 <= j < k ==> Precedes(hashes[sorted[j]], sorted[j], hashed, id)
    ensures forall j :: k <= j < |sorted| ==> !Precedes(hashes[sorted[j]], sorted[j], hashed, id)
  {
    var high := |sorted|;
    k := 0;
    while k < high
      invariant k <= high <= |sorted|
      invariant forall j :: 0 <= j < k ==> Precedes(hashes[sorted[j]], sorted[j], hashed, id)
      invariant forall j :: high <= j < |sorted| ==> !Precedes(hashes[sorted[j]], sorted[j], hashed, id)
    {
      var middle := (k + high) / 2;
      if Precedes(hashes[sorted[middle]], sorted[middle], hashed, id) {
        k := middle + 1;
      } else {
        high := middle;
      }
    }
  }

  lemma InsertKeepsOrder(hashes: seq<nat>, sorted: seq<SymbolId>, hashed: nat, at: nat, j: nat, k: nat)
    requires InOrder(hashes, sorted) && at <= |sorted| && j < k <= |sorted|
    requires forall i :: 0 <= i < at ==> Precedes(hashes[sorted[i]], sorted[i], hashed, |hashes|)
    requires forall i :: at <= i < |sorted| ==> !Precedes(hashes[sorted[i]], sorted[i], hashed, |hashes|)
    ensures var r := sorted[..at] + [|hashes|] + sorted[at..];
            var extended := hashes + [hashed];
            r[j] < |extended| && r[k] < |extended| && Precedes(extended[r[j]], r[j], extended[r[k]], r[k])
  {
    var r := sorted[..at] + [|hashes|] + sorted[at..];
    assert r[j] == if j < at then sorted[j] else if j == at then |hashes| else sorted[j - 1];
    assert r[k] == if k < at then sorted[k] else if k == at then |hashes| else sorted[k - 1];
  }

  /** Adds a new, largest id to a sorted list. */
  method InsertSorted(ghost hash: Hasher, ghost names: seq<string>, ghost value: string,
                      hashes: seq<nat>, sorted: seq<SymbolId>, hashed: nat) returns (r: seq<SymbolId>)
    requires SortedFinds(hash, names, hashes, sorted) && hashed == hash(value)
    ensures SortedFinds(hash, names + [value], hashes + [hashed], r) && |r| == |sorted| + 1
  {
    var id := |hashes|;
    var at := LowerBound(hashes, sorted, hashed, id);
    r := sorted[..at] + [id] + sorted[at..];
    assert r[at] == id;
    var extended := hashes + [hashed];
    assert InOrder(extended, r) by {
      assert forall k :: 0 <= k < |r| ==> r[k] < |extended|;
      forall j, k | 0 <= j < k < |r| ensures Precedes(extended[r[j]], r[j], extended[r[k]], r[k]) {
        InsertKeepsOrder(hashes, sorted, hashed, at, j, k);
      }
    }
    forall known | 0 <= known < |names| ensures known in r {
      assert known in sorted;
      var k :| 0 <= k < |sorted| && sorted[k] == known;
      assert r[if k < at then k else k + 1] == known;
    }
  }

  lemma TablesMiss(hash: Hasher, names: seq<string>, idsByHash: map<nat, SymbolId>, collisions: map<nat, seq<SymbolId>>, value: string)
    requires TablesFind(hash, names, idsByHash, collisions)
    requires hash(value) in idsByHash && idsByHash[hash(value)] < |names| ==> names[idsByHash[hash(value)]] != value
    requires hash(value) in collisions ==> forall id :: id in collisions[hash(value)] && id < |names| ==> names[id] != value
    ensures value !in names
  {
    forall id | 0 <= id < |names| ensures names[id] != value {
      assert TableFinds(hash(names[id]), id, idsByHash, collisions);
    }
  }

  /** A scan over the run of equal hashes from their lower bound misses nothing. */
  lemma SortedMiss(hash: Hasher, names: seq<string>, hashes: seq<nat>, sorted: seq<SymbolId>, value: string, start: nat, end: nat)
    requires SortedFinds(hash, names, hashes, sorted) && start <= end <= |sorted|
    requires forall j :: 0 <= j < start ==> Precedes(hashes[sorted[j]], sorted[j], hash(value), 0)
    requires forall j :: start <= j < |sorted| ==> !Precedes(hashes[sorted[j]], sorted[j], hash(value), 0)
    requires forall j :: start <= j < end ==> names[sorted[j]] != value
    requires end < |sorted| ==> hashes[sorted[end]] != hash(value)
    ensures value !in names
  {
    forall id | 0 <= id < |names| ensures names[id] != value {
      assert id in sorted;
      var place :| 0 <= place < |sorted| && sorted[place] == id;
      if end < place {
        assert Precedes(hashes[sorted[end]], sorted[end], hashes[sorted[place]], sorted[place]);
      }
    }
  }

  lemma AppendedNames(bytes: string, entries: seq<InternedString>, value: string)
    requires Fits(bytes, entries)
    ensures Fits(bytes + value, entries + [InternedString(|bytes|, |value|)])
    ensures NamesOf(bytes + value, entries + [InternedString(|bytes|, |value|)]) == NamesOf(bytes, entries) + [value]
  {
    var after := entries + [InternedString(|bytes|, |value|)];
    forall i | 0 <= i < |after| ensures NameIn(bytes + value, after[i]) == (NamesOf(bytes, entries) + [value])[i] {
    }
  }

  class IdentifierInterner {
    const hash: Hasher
    var bytes: string
    var entries: seq<InternedString>
    var idsByHash: map<nat, SymbolId>
    var collisions: map<nat, seq<SymbolId>>
    var hashesById: seq<nat>
    var sortedLookup: seq<SymbolId>

    ghost predicate Valid()
      reads this
    {
      && Fits(bytes, entries)
      && NoRepeats(Names())
      && (if sortedLookup == [] then TablesFind(hash, Names(), idsByHash, collisions)
          else SortedFinds(hash, Names(), hashesById, sortedLookup))
    }

    ghost function Names(): seq<string>
      requires Fits(bytes, entries)
      reads this
    {
      NamesOf(bytes, entries)
    }

    lemma NamesAreEntries()
      requires Fits(bytes, entries)
      ensures |Names()| == |entries|
    {
    }

    constructor (hash: Hasher)
      ensures Valid() && Names() == [] && this.hash == hash && sortedLookup == []
    {
      this.hash := hash;
      bytes, entries, idsByHash, collisions, hashesById, sortedLookup := "", [], map[], map[], [], [];
    }

    /** A fully validated load rebuilds the hash tables. */
    constructor Loaded(hash: Hasher, bytes: string, entries: seq<InternedString>, index: SymbolIndex)
      requires Fits(bytes, entries) && NoRepeats(NamesOf(bytes, entries))
      requires TablesFind(hash, NamesOf(bytes, entries), index.idsByHash, index.collisions)
      ensures Valid() && Names() == NamesOf(bytes, entries) && this.hash == hash
    {
      this.hash, this.bytes, this.entries := hash, bytes, entries;
      idsByHash, collisions, hashesById, sortedLookup := index.idsByHash, index.collisions, [], [];
    }

    function Resolve(id: SymbolId): Option<string>
      reads this
    {
      if id < |entries| && entries[id].start + entries[id].len <= |bytes| then Some(NameIn(bytes, entries[id])) else None
    }

    /** Whichever lookup structure is in use, a string is found exactly if it was interned, under its id. */
    method Lookup(value: string) returns (r: Option<SymbolId>)
      requires Valid()
      ensures r.Some? ==> Resolve(r.value) == Some(value) && r.value < |Names()| && Names()[r.value] == value
      ensures r.Some? <==> value in Names()
    {
      var hashed := hash(value);
      if sortedLookup != [] {
        r := LookupSorted(hashed, value);
        return;
      }
      if hashed in idsByHash && Resolve(idsByHash[hashed]) == Some(value) {
        return Some(idsByHash[hashed]);
      }
      if hashed in collisions {
        var ids := collisions[hashed];
        for i := 0 to |ids|
          invariant forall k :: 0 <= k < i ==> Resolve(ids[k]) != Some(value)
        {
          if Resolve(ids[i]) == Some(value) {
            return Some(ids[i]);
          }
        }
      }
      r := None;
      TablesMiss(hash, Names(), idsByHash, collisions, value);
    }

    method LookupSorted(hashed: nat, value: string) returns (r: Option<SymbolId>)
      requires Valid() && sortedLookup != [] && hashed == hash(value)
      ensures r.Some? ==> Resolve(r.value) == Some(value) && r.value < |Names()| && Names()[r.value] == value
      ensures r.Some? <==> value in Names()
    {
      var start := LowerBound(hashesById, sortedLookup, hashed, 0);
      var k := start;
      while k < |sortedLookup| && hashesById[sortedLookup[k]] == hashed
        invariant start <= k <= |sortedLookup|
        invariant forall j :: start <= j < k ==> Resolve(sortedLookup[j]) != Some(value)
      {
        if Resolve(sortedLookup[k]) == Some(value) {
          return Some(sortedLookup[k]);
        }
        k := k + 1;
      }
      r := None;
      SortedMiss(hash, Names(), hashesById, sortedLookup, value, start, k);
    }

    /** Interns a string. An id never changes its meaning; a string already known keeps its id. On a
        capacity failure no id is added. The hash tables stay usable; the sorted form does exactly if it
        was the number of ids that ran out, because the bytes are counted after the id has been entered. */
    method Intern(value: string) returns (r: Result<SymbolId, InternError>)
      requires Valid()
      modifies this
      ensures Fits(bytes, entries)
      ensures r.Ok? ==> Valid() && Names() == if value in old(Names()) then old(Names()) else old(Names()) + [value]
      ensures r.Ok? ==> r.value < |Names()| && Names()[r.value] == value
      ensures r.Ok? ==> |bytes| == old(|bytes|) + if value in old(Names()) then 0 else |value|
      ensures r.Err? ==> Names() == old(Names()) && value !in Names()
      ensures r.Err? ==> (Valid() <==> old(sortedLookup) == [] || |old(entries)| + 1 > MAX_U32)
      ensures r.Err? <==> value !in old(Names()) && (|old(entries)| + 1 > MAX_U32 || |old(bytes)| + |value| > MAX_U32)
      ensures (old(sortedLookup) == []) <==> (sortedLookup == [])
    {
      var known := Lookup(value);
      if known.Some? {
        return Ok(known.value);
      }
      var id := |entries|;
      if id + 1 > MAX_U32 {
        return Err(CapacityExceeded("identifier interner"));
      }
      ghost var names := Names();
      IndexNew(value, id);
      if |bytes| > MAX_U32 || |value| > MAX_U32 || |bytes| + |value| > MAX_U32 {
        return Err(CapacityExceeded("identifier interner bytes"));
      }
      entries := entries + [InternedString(|bytes|, |value|)];
      bytes := bytes + value;
      AppendedNames(old(bytes), old(entries), value);
      r := Ok(id);
    }

    /** Enters the next id into whichever lookup structure is in use. */
    method IndexNew(value: string, id: SymbolId)
      requires Valid() && id == |entries| && value !in Names()
      modifies this`idsByHash, this`collisions, this`hashesById, this`sortedLookup
      ensures (sortedLookup == []) <==> (old(sortedLookup) == [])
      ensures sortedLookup == [] ==> TablesFind(hash, Names(), idsByHash, collisions)
      ensures if sortedLookup == [] then TablesFind(hash, Names() + [value], idsByHash, collisions)
              else SortedFinds(hash, Names() + [value], hashesById, sortedLookup)
    {
      var hashed := hash(value);
      if sortedLookup != [] {
        sortedLookup := InsertSorted(hash, Names(), value, hashesById, sortedLookup, hashed);
        hashesById := hashesById + [hashed];
        return;
      }
      if hashed in idsByHash {
        collisions := collisions[hashed := (if hashed in collisions then collisions[hashed] else []) + [id]];
      } else {
        idsByHash := idsByHash[hashed := id];
      }
      forall k | 0 <= k <= id ensures TableFinds(hash((Names() + [value])[k]), k, idsByHash, collisions) {
        if k < id {
          assert TableFinds(hash(Names()[k]), k, old(idsByHash), old(collisions));
        }
      }
    }

    method Clone() returns (copy: IdentifierInterner)
      ensures Valid() ==> copy.Valid() && copy.Names() == Names()
      ensures fresh(copy) && copy.hash == hash
      ensures copy.bytes == bytes && copy.entries == entries && copy.idsByHash == idsByHash && copy.collisions == collisions
      ensures copy.hashesById == hashesById && copy.sortedLookup == sortedLookup
    {
      copy := new IdentifierInterner(hash);
      copy.bytes, copy.entries, copy.idsByHash, copy.collisions := bytes, entries, idsByHash, collisions;
      copy.hashesById, copy.sortedLookup := hashesById, sortedLookup;
    }
  }

  // ---------------------------------------------------------------- snapshots

  /** The lookup acceleration written beside the symbols: their hashes, and the ids in hash order. */
  method EncodeAcceleration(hash: Hasher, names: seq<string>) returns (hashes: seq<nat>, lookup: seq<SymbolId>)
    ensures SortedFinds(hash, names, hashes, lookup) && |lookup| == |names|
  {
    hashes, lookup := [], [];
    for i := 0 to |names|
      invariant SortedFinds(hash, names[..i], hashes, lookup) && |lookup| == i
    {
      assert names[..i + 1] == names[..i] + [names[i]];
      lookup := InsertSorted(hash, names[..i], names[i], hashes, lookup, hash(names[i]));
      hashes := hashes + [hash(names[i])];
    }
    assert names[..|names|] == names;
  }

  /** The identifier tables of a fully validated load. */
  datatype SymbolIndex = SymbolIndex(idsByHash: map<nat, SymbolId>, collisions: map<nat, seq<SymbolId>>)

  predicate ValueExists(bytes: string, entries: seq<InternedString>, index: SymbolIndex, hashed: nat, value: string)
    requires Fits(bytes, entries)
    requires forall h :: h in index.idsByHash ==> index.idsByHash[h] < |entries|
    requires forall h, i :: h in index.collisions && 0 <= i < |index.collisions[h]| ==> index.collisions[h][i] < |entries|
  {
    || (hashed in index.idsByHash && NameIn(bytes, entries[index.idsByHash[hashed]]) == value)
    || (hashed in index.collisions && exists i :: 0 <= i < |index.collisions[hashed]| && NameIn(bytes, entries[index.collisions[hashed][i]]) == value)
  }

  ghost predicate IndexesOnly(hash: Hasher, names: seq<string>, index: SymbolIndex) {
    && (forall h :: h in index.idsByHash ==> index.idsByHash[h] < |names| && hash(names[index.idsByHash[h]]) == h)
    && (forall h, i :: h in index.collisions && 0 <= i < |index.collisions[h]| ==>
          index.collisions[h][i] < |names| && hash(names[index.collisions[h][i]]) == h)
  }

  /** The tables index exactly the given symbols, whose stored hashes are right and which all differ. */
  ghost predicate Indexed(hash: Hasher, names: seq<string>, hashes: seq<nat>, index: SymbolIndex) {
    && HashesMatch(hash, names, hashes) && NoRepeats(names)
    && TablesFind(hash, names, index.idsByHash, index.collisions) && IndexesOnly(hash, names, index)
  }

  function Enter(index: SymbolIndex, hashed: nat, id: SymbolId): SymbolIndex {
    if hashed in index.idsByHash
    then index.(collisions := index.collisions[hashed := (if hashed in index.collisions then index.collisions[hashed] else []) + [id]])
    else index.(idsByHash := index.idsByHash[hashed := id])
  }

  /** Rebuilds the hash tables from loaded symbols. It succeeds exactly on symbols whose stored hashes are
      right and which are all different, and then the tables find every one of them. */
  method IndexFullLookup(hash: Hasher, bytes: string, entries: seq<InternedString>, hashes: seq<nat>) returns (r: Result<SymbolIndex, InternError>)
    requires Fits(bytes, entries) && |hashes| == |entries|
    ensures r.Ok? <==> HashesMatch(hash, NamesOf(bytes, entries), hashes) && NoRepeats(NamesOf(bytes, entries))
    ensures r.Ok? ==> TablesFind(hash, NamesOf(bytes, entries), r.value.idsByHash, r.value.collisions)
  {
    hide TablesFind, IndexesOnly, Indexed, NoRepeats, HashesMatch;
    ghost var names := NamesOf(bytes, entries);
    var index := SymbolIndex(map[], map[]);
    NothingIndexed(hash);
    assert names[..0] == [] && hashes[..0] == [];
    for i := 0 to |entries|
      invariant Indexed(hash, names[..i], hashes[..i], index)
    {
      IndexedInRange(hash, names[..i], hashes[..i], index);
      var value := NameIn(bytes, entries[i]);
      assert names[i] == value;
      if hash(value) != hashes[i] {
        WrongHash(hash, names, hashes, i);
        return Err(Format("symbol lookup hash does not match symbol bytes"));
      }
      ValueExistsExactly(hash, bytes, entries, hashes, i, index, value);
      if ValueExists(bytes, entries, index, hashes[i], value) {
        RepeatedName(names, i);
        return Err(Format("duplicate symbol in snapshot"));
      }
      EnterIndexes(hash, names, hashes, i, index);
      index := Enter(index, hashes[i], i);
    }
    assert names[..|entries|] == names && hashes[..|entries|] == hashes;
    IndexedInRange(hash, names, hashes, index);
    r := Ok(index);
  }

  lemma NothingIndexed(hash: Hasher)
    ensures Indexed(hash, [], [], SymbolIndex(map[], map[]))
  {
  }

  lemma IndexedInRange(hash: Hasher, names: seq<string>, hashes: seq<nat>, index: SymbolIndex)
    requires Indexed(hash, names, hashes, index)
    ensures forall h :: h in index.idsByHash ==> index.idsByHash[h] < |names|
    ensures forall h, i :: h in index.collisions && 0 <= i < |index.collisions[h]| ==> index.collisions[h][i] < |names|
    ensures HashesMatch(hash, names, hashes) && NoRepeats(names) && TablesFind(hash, names, index.idsByHash, index.collisions)
  {
  }

  lemma WrongHash(hash: Hasher, names: seq<string>, hashes: seq<nat>, i: nat)
    requires |hashes| == |names| && i < |names| && hash(names[i]) != hashes[i]
    ensures !HashesMatch(hash, names, hashes)
  {
  }

  lemma RepeatedName(names: seq<string>, i: nat)
    requires i < |names| && names[i] in names[..i]
    ensures !NoRepeats(names)
  {
  }

  lemma ValueExistsExactly(hash: Hasher, bytes: string, entries: seq<InternedString>, hashes: seq<nat>, i: nat, index: SymbolIndex, value: string)
    requires Fits(bytes, entries) && i <= |entries| == |hashes|
    requires Indexed(hash, NamesOf(bytes, entries)[..i], hashes[..i], index)
    ensures ValueExists(bytes, entries, index, hash(value), value) <==> value in NamesOf(bytes, entries)[..i]
  {
    var names := NamesOf(bytes, entries)[..i];
    forall j | 0 <= j < i && names[j] == value ensures ValueExists(bytes, entries, index, hash(value), value) {
      assert TableFinds(hash(names[j]), j, index.idsByHash, index.collisions);
    }
  }

  lemma EnterIndexesOnly(hash: Hasher, names: seq<string>, value: string, index: SymbolIndex)
    requires IndexesOnly(hash, names, index)
    ensures IndexesOnly(hash, names + [value], Enter(index, hash(value), |names|))
  {
  }

  lemma EnterIndexes(hash: Hasher, names: seq<string>, hashes: seq<nat>, i: nat, index: SymbolIndex)
    requires i < |names| == |hashes| && hash(names[i]) == hashes[i] && names[i] !in names[..i]
    requires Indexed(hash, names[..i], hashes[..i], index)
    ensures Indexed(hash, names[..i + 1], hashes[..i + 1], Enter(index, hashes[i], i))
  {
    hide IndexesOnly;
    var before, after := names[..i], names[..i + 1];
    var entered := Enter(index, hashes[i], i);
    assert after == before + [names[i]];
    EnterIndexesOnly(hash, before, names[i], index);
    forall j | 0 <= j < |after| ensures TableFinds(hash(after[j]), j, entered.idsByHash, entered.collisions) {
      if j < i {
        assert TableFinds(hash(before[j]), j, index.idsByHash, index.collisions);
      }
    }
  }
}
