/** The identity index: from a row's hash to the live row equal to it, however badly the hash collides. */
module IdentityIndex {
  import opened Vocabulary
  import opened Interner

  /** A stored relationship, as symbols. */
  datatype Row = Row(resourceType: SymbolId, resourceId: SymbolId, relation: SymbolId,
                     subjectType: SymbolId, subjectId: SymbolId, subjectRelation: Option<SymbolId>)

  /** Position of a row in its store. */
  type RowId = nat

  /** The row ids filed under one hash: the primary one first. */
  function BucketOf(primary: map<nat, RowId>, collisions: map<nat, seq<RowId>>, hashed: nat): seq<RowId> {
    (if hashed in primary then [primary[hashed]] else []) + (if hashed in collisions then collisions[hashed] else [])
  }

  /** The rows of one bucket hash to it and differ from each other. */
  ghost predicate BucketValid(hash: Row -> nat, rows: seq<Row>, hashed: nat, bucket: seq<RowId>) {
    && (forall k :: 0 <= k < |bucket| ==> bucket[k] < |rows| && hash(rows[bucket[k]]) == hashed)
    && (forall j, k :: 0 <= j < k < |bucket| ==> rows[bucket[j]] != rows[bucket[k]])
  }

  lemma BucketExtends(hash: Row -> nat, rows: seq<Row>, after: seq<Row>, hashed: nat, bucket: seq<RowId>)
    requires BucketValid(hash, rows, hashed, bucket) && rows <= after
    ensures BucketValid(hash, after, hashed, bucket)
  {
  }

  lemma BucketAppends(hash: Row -> nat, rows: seq<Row>, hashed: nat, bucket: seq<RowId>, id: RowId)
    requires BucketValid(hash, rows, hashed, bucket)
    requires id < |rows| && hash(rows[id]) == hashed && forall k :: 0 <= k < |bucket| ==> rows[bucket[k]] != rows[id]
    ensures BucketValid(hash, rows, hashed, bucket + [id])
  {
  }

  /** Dropping the head and moving the last element into its place. */
  lemma HeadReplaced(hash: Row -> nat, rows: seq<Row>, hashed: nat, bucket: seq<RowId>)
    requires BucketValid(hash, rows, hashed, bucket) && |bucket| >= 2
    ensures var left := [bucket[|bucket| - 1]] + bucket[1..|bucket| - 1];
            && BucketValid(hash, rows, hashed, left)
            && forall id :: id in left <==> id in bucket && id != bucket[0]
  {
    var last := |bucket| - 1;
    var left := [bucket[last]] + bucket[1..last];
    forall k | 0 <= k < |left| ensures left[k] == bucket[if k == 0 then last else k] && left[k] != bucket[0] {
    }
    forall id | id in bucket && id != bucket[0] ensures id in left {
      var k :| 0 <= k < |bucket| && bucket[k] == id;
      assert left[if k == last then 0 else k] == id;
    }
  }

  /** Dropping any other element, with the last one moved into its place. */
  lemma SwapRemoved(hash: Row -> nat, rows: seq<Row>, hashed: nat, bucket: seq<RowId>, at: nat)
    requires BucketValid(hash, rows, hashed, bucket) && 0 < at < |bucket|
    ensures var left := bucket[at := bucket[|bucket| - 1]][..|bucket| - 1];
            && BucketValid(hash, rows, hashed, left)
            && forall id :: id in left <==> id in bucket && id != bucket[at]
  {
    var last := |bucket| - 1;
    var left := bucket[at := bucket[last]][..last];
    forall k | 0 <= k < |left| ensures left[k] == bucket[if k == at then last else k] && left[k] != bucket[at] {
    }
    forall id | id in bucket && id != bucket[at] ensures id in left {
      var k :| 0 <= k < |bucket| && bucket[k] == id;
      assert left[if k == last then at else k] == id;
    }
  }

  /** A collision list only backs up a primary entry, and every bucket is valid. */
  ghost predicate TablesValid(hash: Row -> nat, rows: seq<Row>, primary: map<nat, RowId>, collisions: map<nat, seq<RowId>>) {
    && (forall hashed: nat :: hashed in collisions ==> hashed in primary && collisions[hashed] != [])
    && (forall hashed: nat :: BucketValid(hash, rows, hashed, BucketOf(primary, collisions, hashed)))
  }

  lemma NoTablesValid(hash: Row -> nat, rows: seq<Row>)
    ensures TablesValid(hash, rows, map[], map[])
    ensures forall id: RowId :: !Filed(hash, rows, map[], map[], id)
  {
  }

  ghost predicate Filed(hash: Row -> nat, rows: seq<Row>, primary: map<nat, RowId>, collisions: map<nat, seq<RowId>>, id: RowId) {
    id < |rows| && id in BucketOf(primary, collisions, hash(rows[id]))
  }

  /** Tables that differ in one bucket only. */
  ghost predicate SameElsewhere(primary: map<nat, RowId>, collisions: map<nat, seq<RowId>>,
                                primary': map<nat, RowId>, collisions': map<nat, seq<RowId>>, hashed: nat) {
    && (forall other: nat :: other != hashed ==> BucketOf(primary', collisions', other) == BucketOf(primary, collisions, other))
    && (forall other: nat :: other in collisions' ==> other in primary' && collisions'[other] != [])
  }

  /** What follows for every row once one bucket has gained an id. */
  lemma BucketGained(hash: Row -> nat, rows: seq<Row>, after: seq<Row>, primary: map<nat, RowId>, collisions: map<nat, seq<RowId>>,
                     primary': map<nat, RowId>, collisions': map<nat, seq<RowId>>, id: RowId)
    requires TablesValid(hash, rows, primary, collisions) && rows <= after && id < |after|
    requires forall held: RowId :: Filed(hash, rows, primary, collisions, held) ==> rows[held] != after[id]
    requires SameElsewhere(primary, collisions, primary', collisions', hash(after[id]))
    requires BucketOf(primary', collisions', hash(after[id])) == BucketOf(primary, collisions, hash(after[id])) + [id]
    ensures TablesValid(hash, after, primary', collisions')
    ensures forall held: RowId :: Filed(hash, after, primary', collisions', held) <==> Filed(hash, rows, primary, collisions, held) || held == id
  {
    var hashed := hash(after[id]);
    forall other: nat ensures BucketValid(hash, after, other, BucketOf(primary', collisions', other)) {
      var before := BucketOf(primary, collisions, other);
      assert BucketValid(hash, rows, other, before);
      BucketExtends(hash, rows, after, other, before);
      if other == hashed {
        forall k | 0 <= k < |before| ensures after[before[k]] != after[id] {
          assert Filed(hash, rows, primary, collisions, before[k]);
        }
        BucketAppends(hash, after, hashed, before, id);
      }
    }
    forall held: RowId ensures Filed(hash, after, primary', collisions', held) <==> Filed(hash, rows, primary, collisions, held) || held == id {
      if held < |after| {
        assert BucketValid(hash, rows, hash(after[held]), BucketOf(primary, collisions, hash(after[held])));
      }
    }
  }

  /** What follows for every row once one bucket has lost an id. */
  lemma BucketLost(hash: Row -> nat, rows: seq<Row>, primary: map<nat, RowId>, collisions: map<nat, seq<RowId>>,
                   primary': map<nat, RowId>, collisions': map<nat, seq<RowId>>, id: RowId)
    requires TablesValid(hash, rows, primary, collisions) && id < |rows|
    requires SameElsewhere(primary, collisions, primary', collisions', hash(rows[id]))
    requires BucketValid(hash, rows, hash(rows[id]), BucketOf(primary', collisions', hash(rows[id])))
    requires forall held: RowId :: held in BucketOf(primary', collisions', hash(rows[id]))
                                   <==> held in BucketOf(primary, collisions, hash(rows[id])) && held != id
    ensures TablesValid(hash, rows, primary', collisions')
    ensures forall held: RowId :: Filed(hash, rows, primary', collisions', held) <==> Filed(hash, rows, primary, collisions, held) && held != id
  {
    hide BucketOf, BucketValid;
    forall other: nat ensures BucketValid(hash, rows, other, BucketOf(primary', collisions', other)) {
      assert BucketValid(hash, rows, other, BucketOf(primary, collisions, other));
    }
    forall held: RowId ensures Filed(hash, rows, primary', collisions', held) <==> Filed(hash, rows, primary, collisions, held) && held != id {
      if held == id || held >= |rows| || hash(rows[held]) == hash(rows[id]) {
      } else {
        assert BucketOf(primary', collisions', hash(rows[held])) == BucketOf(primary, collisions, hash(rows[held]));
        assert id !in BucketOf(primary', collisions', hash(rows[id]));
      }
    }
  }

  class RelationshipIdentityIndex {
    const hash: Row -> nat
    var primary: map<nat, RowId>
    var collisions: map<nat, seq<RowId>>

    constructor (hash: Row -> nat)
      ensures this.hash == hash && primary == map[] && collisions == map[]
      ensures Valid([])
    {
      this.hash, primary, collisions := hash, map[], map[];
    }

    ghost function Bucket(hashed: nat): seq<RowId>
      reads this
    {
      BucketOf(primary, collisions, hashed)
    }

    ghost predicate Valid(rows: seq<Row>)
      reads this
    {
      TablesValid(hash, rows, primary, collisions)
    }

    /** The index knows the row numbered `id`. */
    ghost predicate Holds(rows: seq<Row>, id: RowId)
      reads this
    {
      Filed(hash, rows, primary, collisions, id)
    }

    lemma HeldRowsDiffer(rows: seq<Row>, left: RowId, right: RowId)
      requires Valid(rows) && Holds(rows, left) && Holds(rows, right) && left != right
      ensures rows[left] != rows[right]
    {
      if hash(rows[left]) == hash(rows[right]) {
        var bucket := Bucket(hash(rows[left]));
        assert BucketValid(hash, rows, hash(rows[left]), bucket);
        var j :| 0 <= j < |bucket| && bucket[j] == left;
        var k :| 0 <= k < |bucket| && bucket[k] == right;
        assert j < k || k < j;
      }
    }

    /** Where a row is filed, if it is: position in its bucket. */
    method Locate(rows: seq<Row>, row: Row) returns (at: Option<nat>)
      requires Valid(rows)
      ensures at.Some? ==> at.value < |Bucket(hash(row))| && Bucket(hash(row))[at.value] < |rows| && rows[Bucket(hash(row))[at.value]] == row
      ensures at.None? ==> forall id: RowId :: Holds(rows, id) ==> rows[id] != row
    {
      var hashed := hash(row);
      ghost var bucket := Bucket(hashed);
      assert BucketValid(hash, rows, hashed, bucket);
      if hashed in primary {
        assert bucket[0] == primary[hashed];
        if rows[primary[hashed]] == row {
          return Some(0);
        }
      }
      if hashed in collisions {
        var ids := collisions[hashed];
        for i := 0 to |ids|
          invariant forall k :: 0 <= k < i + 1 ==> rows[bucket[k]] != row
        {
          assert bucket[i + 1] == ids[i];
          if rows[ids[i]] == row {
            return Some(i + 1);
          }
        }
      }
      at := None;
      forall id: RowId | Holds(rows, id) ensures rows[id] != row {
        if hash(rows[id]) == hashed {
          var k :| 0 <= k < |bucket| && bucket[k] == id;
        }
      }
    }

    /** Finds the held row equal to `row` if there is one. */
    method Find(rows: seq<Row>, row: Row) returns (r: Option<RowId>)
      requires Valid(rows)
      ensures r.Some? ==> Holds(rows, r.value) && rows[r.value] == row
      ensures r.None? ==> forall id: RowId :: Holds(rows, id) ==> rows[id] != row
    {
      var at := Locate(rows, row);
      if at.None? {
        return None;
      }
      assert BucketValid(hash, rows, hash(row), Bucket(hash(row)));
      r := Some(if at.value == 0 then primary[hash(row)] else collisions[hash(row)][at.value - 1]);
    }

    /** Files a row that equals no held one. `after` is the row list it belongs to. */
    method Insert(rows: seq<Row>, id: RowId, row: Row, ghost after: seq<Row>)
      requires Valid(rows) && rows <= after && id < |after| && after[id] == row
      requires forall held: RowId :: Holds(rows, held) ==> rows[held] != row
      modifies this
      ensures Valid(after)
      ensures forall held: RowId :: Holds(after, held) <==> old(Holds(rows, held)) || held == id
    {
      var hashed := hash(row);
      ghost var before := Bucket(hashed);
      assert BucketValid(hash, rows, hashed, before);
      forall k | 0 <= k < |before| ensures rows[before[k]] != row {
        assert Holds(rows, before[k]);
      }
      if hashed in primary {
        assert before[0] == primary[hashed];
        if primary[hashed] < |rows| && rows[primary[hashed]] != row {
          collisions := collisions[hashed := (if hashed in collisions then collisions[hashed] else []) + [id]];
        }
      } else {
        primary := primary[hashed := id];
      }
      assert Bucket(hashed) == before + [id];
      BucketGained(hash, rows, after, old(primary), old(collisions), primary, collisions, id);
    }

    /** Forgets the held row equal to `row`. When the primary entry goes, the last collision takes its
        place; a collision is removed by moving the last one over it. */
    method Remove(rows: seq<Row>, row: Row) returns (r: Option<RowId>)
      requires Valid(rows)
      modifies this
      ensures Valid(rows)
      ensures r.Some? ==> old(Holds(rows, r.value)) && rows[r.value] == row
      ensures r.None? ==> forall id: RowId :: old(Holds(rows, id)) ==> rows[id] != row
      ensures forall id: RowId :: Holds(rows, id) <==> old(Holds(rows, id)) && r != Some(id)
    {
      hide BucketValid;
      var at := Locate(rows, row);
      if at.None? {
        return None;
      }
      var hashed := hash(row);
      assert BucketValid(hash, rows, hashed, Bucket(hashed));
      if at.value == 0 {
        r := Some(primary[hashed]);
        RemovePrimary(rows, hashed);
      } else {
        r := Some(collisions[hashed][at.value - 1]);
        RemoveCollision(rows, hashed, at.value - 1);
      }
      BucketLost(hash, rows, old(primary), old(collisions), primary, collisions, r.value);
    }

    method RemovePrimary(ghost rows: seq<Row>, hashed: nat)
      requires Valid(rows) && hashed in primary
      modifies this
      ensures SameElsewhere(old(primary), old(collisions), primary, collisions, hashed)
      ensures BucketValid(hash, rows, hashed, Bucket(hashed))
      ensures forall held: RowId :: held in Bucket(hashed) <==> held in old(Bucket(hashed)) && held != old(primary[hashed])
    {
      ghost var before := Bucket(hashed);
      assert BucketValid(hash, rows, hashed, before);
      if hashed in collisions {
        var ids := collisions[hashed];
        HeadReplaced(hash, rows, hashed, before);
        primary := primary[hashed := ids[|ids| - 1]];
        collisions := if |ids| == 1 then collisions - {hashed} else collisions[hashed := ids[..|ids| - 1]];
        assert Bucket(hashed) == [before[|before| - 1]] + before[1..|before| - 1];
      } else {
        primary := primary - {hashed};
      }
    }

    method RemoveCollision(ghost rows: seq<Row>, hashed: nat, at: nat)
      requires Valid(rows) && hashed in collisions && at < |collisions[hashed]|
      modifies this
      ensures SameElsewhere(old(primary), old(collisions), primary, collisions, hashed)
      ensures BucketValid(hash, rows, hashed, Bucket(hashed))
      ensures forall held: RowId :: held in Bucket(hashed) <==> held in old(Bucket(hashed)) && held != old(collisions[hashed][at])
    {
      ghost var before := Bucket(hashed);
      assert BucketValid(hash, rows, hashed, before);
      SwapRemoved(hash, rows, hashed, before, at + 1);
      var ids := collisions[hashed];
      var left := ids[at := ids[|ids| - 1]][..|ids| - 1];
      collisions := if left == [] then collisions - {hashed} else collisions[hashed := left];
      assert Bucket(hashed) == before[at + 1 := before[|before| - 1]][..|before| - 1];
    }

    method Clone(ghost rows: seq<Row>) returns (copy: RelationshipIdentityIndex)
      ensures copy.Valid(rows) == Valid(rows)
      ensures forall id: RowId :: copy.Holds(rows, id) == Holds(rows, id)
      ensures fresh(copy) && copy.hash == hash && copy.primary == primary && copy.collisions == collisions
    {
      copy := new RelationshipIdentityIndex(hash);
      copy.primary, copy.collisions := primary, collisions;
    }
  }
}
