/** The relationship view published with a revision: an indexed checkpoint under a bounded delta of
    insertions and tombstones. Views never change; a batch builds a new one. */
module StoreView {
  import opened Vocabulary
  import opened Interner
  import opened IdentityIndex
  import opened PostingIndex
  import opened StoredRows
  import opened RelationshipStore

  const MAX_DELTA_MUTATIONS := 100_000
  const MAX_DELTA_TOMBSTONES := 100_000

  // ---------------------------------------------------------------- limited matching

  /** What the precondition test asks of a view. */
  predicate AnyMatch(rows: Rows, filter: RelationshipFilter) {
    Query(rows, Matching(filter), AtMost(filter.limit)) != []
  }

  /** The test misses a live match exactly when nothing inserted matches and the checkpoint's matches within
      the limit are all tombstones. */
  lemma AnyMatchMissesExactly(rows: Rows, filter: RelationshipFilter)
    requires filter.limit > 0
    ensures var stored := Select(rows.checkpoint, Matching(filter));
            AnyMatch(rows, filter)
            <==> (exists x :: Live(rows, x) && MatchesResource(x, filter))
                 && !(Select(rows.inserted, Matching(filter)) == []
                      && forall i :: 0 <= i < |stored| && i < filter.limit ==> stored[i] in rows.deleted)
  {
    var keep := Matching(filter);
    var stored, inserted := Select(rows.checkpoint, keep), Select(rows.inserted, keep);
    var alive := (x: Relationship) => x !in rows.deleted;
    var taken := Take(stored, AtMost(filter.limit));
    SelectMembers(rows.checkpoint, keep);
    SelectMembers(rows.inserted, keep);
    SelectMembers(taken, alive);
    if AnyMatch(rows, filter) {
      QueryIsSound(rows, keep, AtMost(filter.limit));
      var x := Query(rows, keep, AtMost(filter.limit))[0];
      assert x in Query(rows, keep, AtMost(filter.limit));
      if inserted == [] {
        var y := Select(taken, alive)[0];
        assert y in Select(taken, alive);
        var i :| 0 <= i < |taken| && taken[i] == y;
        assert stored[i] == y;
      }
    }
    if inserted != [] {
      assert inserted[0] in inserted;
    } else if i :| 0 <= i < |stored| && i < filter.limit && stored[i] !in rows.deleted {
      assert taken[i] == stored[i] && stored[i] in Select(taken, alive);
    }
  }

  /** Whatever the limit, the test can miss a live match behind tombstones. */
  lemma AnyMatchCanMiss(limit: nat) returns (rows: Rows, filter: RelationshipFilter, missed: Relationship)
    ensures filter.limit == limit && Live(rows, missed) && MatchesResource(missed, filter) && !AnyMatch(rows, filter)
  {
    var dead := Viewers(limit);
    missed := ViewerRow(limit);
    rows := Rows([], dead + [missed], set row | row in dead);
    filter := RelationshipFilter(missed.resource.namespace, Some(missed.resource.id), Some(missed.relation), None, limit);
    NextViewerIsNew(limit);
    BuriedRow(dead, missed, Matching(filter));
  }

  /** Without tombstones the test is exact. */
  lemma AnyMatchIsExactWithoutTombstones(rows: Rows, filter: RelationshipFilter)
    requires filter.limit > 0 && rows.deleted == {}
    ensures AnyMatch(rows, filter) <==> exists x :: Live(rows, x) && MatchesResource(x, filter)
  {
    AnyMatchMissesExactly(rows, filter);
    SelectMembers(rows.checkpoint, Matching(filter));
    SelectMembers(rows.inserted, Matching(filter));
    if x :| Live(rows, x) && MatchesResource(x, filter) {
      assert x in Select(rows.inserted, Matching(filter)) || x in Select(rows.checkpoint, Matching(filter));
    }
  }

  /** The view's relationships, as a set. */
  function LiveSet(rows: Rows): set<Relationship> {
    Members(rows.inserted) + (Members(rows.checkpoint) - rows.deleted)
  }

  /** Tombstones name checkpoint rows, and nothing is stored in both segments. */
  ghost predicate Overlays(rows: Rows) {
    && rows.deleted <= Members(rows.checkpoint)
    && Members(rows.inserted) !! Members(rows.checkpoint)
    && NoRepeatedRelationships(rows.inserted) && NoRepeatedRelationships(rows.checkpoint)
  }

  /** With an unbounded limit a query yields the live matches, each once. */
  lemma UnboundedQueryIsExact(rows: Rows, keep: Relationship -> bool)
    requires Overlays(rows)
    ensures forall x :: x in Query(rows, keep, Unbounded) <==> x in LiveSet(rows) && keep(x)
    ensures NoRepeatedRelationships(Query(rows, keep, Unbounded))
  {
    QueryIsLive(rows, keep);
    var alive := (x: Relationship) => x !in rows.deleted;
    SelectedOnce(rows.inserted, keep);
    SelectedOnce(rows.checkpoint, keep);
    SelectedOnce(Select(rows.checkpoint, keep), alive);
    SelectMembers(rows.inserted, keep);
    SelectMembers(rows.checkpoint, keep);
    SelectMembers(Select(rows.checkpoint, keep), alive);
    var left, right := Select(rows.inserted, keep), Select(Select(rows.checkpoint, keep), alive);
    forall i, j | 0 <= i < |left| && 0 <= j < |right| ensures left[i] != right[j] {
      assert left[i] in left && right[j] in right;
      assert left[i] in Members(rows.inserted) && right[j] in Members(rows.checkpoint);
    }
  }

  /** A query within a limit yields the live matches too, exactly if the limit cuts nothing live off. */
  lemma LimitedQueryIsExact(rows: Rows, keep: Relationship -> bool, limit: nat)
    requires Overlays(rows)
    ensures (forall x :: x in Query(rows, keep, AtMost(limit)) <==> x in LiveSet(rows) && keep(x))
            <==> |Select(rows.inserted, keep)| <= limit
                 && forall i :: limit <= i < |Select(rows.checkpoint, keep)| ==> Select(rows.checkpoint, keep)[i] in rows.deleted
  {
    hide Select;
    UnboundedQueryIsExact(rows, keep);
    LimitedQueryIsCompleteExactly(rows, keep, limit);
    var alive := (x: Relationship) => x !in rows.deleted;
    var inserted, stored := Select(rows.inserted, keep), Select(rows.checkpoint, keep);
    SelectMembers(rows.inserted, keep);
    SelectMembers(rows.checkpoint, keep);
    SelectMembers(Take(stored, AtMost(limit)), alive);
    SelectedOnce(rows.inserted, keep);
    SelectedOnce(rows.checkpoint, keep);
    if |inserted| > limit {
      assert inserted[limit] in inserted;
      CutOff(inserted, limit, limit);
    } else if i :| limit <= i < |stored| && stored[i] !in rows.deleted {
      assert stored[i] in stored;
      CutOff(stored, limit, i);
    }
  }

  lemma CutOff(items: seq<Relationship>, limit: nat, i: nat)
    requires NoRepeatedRelationships(items) && limit <= i < |items|
    ensures items[i] !in Take(items, AtMost(limit))
  {
  }

  lemma {:induction false} SelectedOnce(items: seq<Relationship>, keep: Relationship -> bool)
    requires NoRepeatedRelationships(items)
    ensures NoRepeatedRelationships(Select(items, keep))
  {
    if items != [] {
      SelectedOnce(items[1..], keep);
      SelectMembers(items[1..], keep);
      forall x | x in items[1..] ensures x != items[0] {
        var i :| 0 <= i < |items[1..]| && items[1..][i] == x;
      }
    }
  }

  lemma InsertedAbove(rows: Rows, x: Relationship)
    requires Overlays(rows) && x !in rows.inserted && x !in rows.checkpoint
    ensures Overlays(rows.(inserted := rows.inserted + [x]))
    ensures LiveSet(rows.(inserted := rows.inserted + [x])) == LiveSet(rows) + {x}
  {
    assert Members(rows.inserted + [x]) == Members(rows.inserted) + {x};
  }

  lemma RemovedAbove(rows: Rows, x: Relationship)
    requires Overlays(rows) && x in rows.inserted
    ensures var left := Select(rows.inserted, (y: Relationship) => y != x);
            && Overlays(rows.(inserted := left))
            && LiveSet(rows.(inserted := left)) == LiveSet(rows) - {x}
  {
    var keep := (y: Relationship) => y != x;
    SelectMembers(rows.inserted, keep);
    SelectedOnce(rows.inserted, keep);
    assert Members(Select(rows.inserted, keep)) == Members(rows.inserted) - {x};
    assert x !in Members(rows.checkpoint) by { assert x in Members(rows.inserted); }
  }

  lemma TombstoneLaid(rows: Rows, x: Relationship)
    requires Overlays(rows) && x in rows.checkpoint
    ensures Overlays(rows.(deleted := rows.deleted + {x}))
    ensures LiveSet(rows.(deleted := rows.deleted + {x})) == LiveSet(rows) - {x}
  {
    assert x !in Members(rows.inserted) by { assert x in Members(rows.checkpoint); }
  }

  lemma TombstoneLifted(rows: Rows, x: Relationship)
    requires Overlays(rows) && x in rows.deleted
    ensures Overlays(rows.(deleted := rows.deleted - {x}))
    ensures LiveSet(rows.(deleted := rows.deleted - {x})) == LiveSet(rows) + {x}
  {
  }

  // ---------------------------------------------------------------- applying mutations to a delta

  datatype Location = Inserted | CheckpointLive | CheckpointDeleted | Absent

  /** Two stores share no part. */
  ghost predicate Apart(left: IndexedRelationshipStore, right: IndexedRelationshipStore)
    reads left, right
  {
    && left != right && left.interner != right.interner && left.live != right.live && left.postings != right.postings
    && (left.uniqueness.Ready? && right.uniqueness.Ready? ==> left.uniqueness.index != right.uniqueness.index)
  }

  /** A checkpoint and the delta being built over it. */
  ghost predicate Working(checkpoint: IndexedRelationshipStore, inserted: IndexedRelationshipStore, deleted: set<Relationship>)
    reads checkpoint, checkpoint.Parts(), inserted, inserted.Parts()
  {
    && checkpoint.Valid() && checkpoint.uniqueness.Ready?
    && inserted.Valid() && inserted.uniqueness.Ready? && inserted.HashBacked()
    && Apart(checkpoint, inserted)
    && Overlays(Rows(inserted.Contents(), checkpoint.Contents(), deleted))
  }

  method Locate(checkpoint: IndexedRelationshipStore, inserted: IndexedRelationshipStore, deleted: set<Relationship>, x: Relationship) returns (r: Location)
    requires Working(checkpoint, inserted, deleted)
    ensures r.Inserted? <==> x in inserted.Contents()
    ensures r.CheckpointLive? <==> x !in inserted.Contents() && x in checkpoint.Contents() && x !in deleted
    ensures r.CheckpointDeleted? <==> x !in inserted.Contents() && x in checkpoint.Contents() && x in deleted
  {
    hide KeysOf, ListedIn, StrictOrder, TableValid, TablesValid, Filed, TablesFind, SortedFinds, NamesOf, LiveRelationships, KeyRows, AllDiffer, Overlays;
    var above := inserted.ContainsRelationship(x);
    if above {
      return Inserted;
    }
    var below := checkpoint.ContainsRelationship(x);
    r := if !below then Absent else if x in deleted then CheckpointDeleted else CheckpointLive;
  }

  method RemoveInserted(checkpoint: IndexedRelationshipStore, inserted: IndexedRelationshipStore, ghost deleted: set<Relationship>, x: Relationship)
    requires Working(checkpoint, inserted, deleted) && x in inserted.Contents()
    modifies inserted`deadRowCount, inserted.live, inserted.uniqueness.index
    ensures Working(checkpoint, inserted, deleted)
    ensures LiveSet(Rows(inserted.Contents(), checkpoint.Contents(), deleted))
            == old(LiveSet(Rows(inserted.Contents(), checkpoint.Contents(), deleted))) - {x}
  {
    hide KeysOf, ListedIn, StrictOrder, TableValid, TablesValid, Filed, TablesFind, SortedFinds, NamesOf, LiveRelationships, KeyRows, AllDiffer, Overlays, Select;
    RemovedAbove(Rows(inserted.Contents(), checkpoint.Contents(), deleted), x);
    var removed := inserted.DeleteRelationship(x);
  }

  method InsertAbsent(checkpoint: IndexedRelationshipStore, inserted: IndexedRelationshipStore, ghost deleted: set<Relationship>, x: Relationship)
    returns (r: Outcome)
    requires Working(checkpoint, inserted, deleted) && x !in inserted.Contents() && x !in checkpoint.Contents()
    modifies inserted`rows, inserted.interner, inserted.live, inserted.postings, inserted.uniqueness.index
    ensures r.Err? ==> r.error.OutOfCapacity?
    ensures r.Ok? ==> Working(checkpoint, inserted, deleted)
    ensures r.Ok? ==> LiveSet(Rows(inserted.Contents(), checkpoint.Contents(), deleted))
                      == old(LiveSet(Rows(inserted.Contents(), checkpoint.Contents(), deleted))) + {x}
  {
    hide KeysOf, ListedIn, StrictOrder, TableValid, TablesValid, Filed, TablesFind, SortedFinds, NamesOf, LiveRelationships, KeyRows, AllDiffer, Overlays, Select;
    InsertedAbove(Rows(inserted.Contents(), checkpoint.Contents(), deleted), x);
    r := inserted.Insert(x);
  }

  /** Applies one mutation to the delta; the result is the new tombstone set. */
  method ApplyDelta(checkpoint: IndexedRelationshipStore, inserted: IndexedRelationshipStore, deleted: set<Relationship>, mutation: Mutation)
    returns (r: Result<set<Relationship>, StoreError>)
    requires Working(checkpoint, inserted, deleted)
    modifies inserted`rows, inserted`deadRowCount, inserted.interner, inserted.live, inserted.postings, inserted.uniqueness.index
    ensures r.Ok? ==> Working(checkpoint, inserted, r.value)
    ensures r.Ok? ==> StepSpec(old(LiveSet(Rows(inserted.Contents(), checkpoint.Contents(), deleted))), mutation)
                      == Ok(LiveSet(Rows(inserted.Contents(), checkpoint.Contents(), r.value)))
    ensures r.Err? && !r.error.OutOfCapacity? ==>
      StepSpec(old(LiveSet(Rows(inserted.Contents(), checkpoint.Contents(), deleted))), mutation) == Err(r.error)
  {
    hide KeysOf, ListedIn, StrictOrder, TableValid, TablesValid, Filed, TablesFind, SortedFinds, NamesOf, LiveRelationships, KeyRows, AllDiffer, Overlays, Select;
    ghost var rows := Rows(inserted.Contents(), checkpoint.Contents(), deleted);
    var x := mutation.relationship;
    var location := Locate(checkpoint, inserted, deleted, x);
    match location
    case Inserted =>
      if mutation.Create? {
        return Err(RelationshipAlreadyExists(x));
      }
      if mutation.Delete? {
        RemoveInserted(checkpoint, inserted, deleted, x);
      } else {
        assert LiveSet(rows) == LiveSet(rows) + {x};
      }
      return Ok(deleted);
    case CheckpointLive =>
      if mutation.Create? {
        return Err(RelationshipAlreadyExists(x));
      }
      if mutation.Delete? {
        TombstoneLaid(rows, x);
        return Ok(deleted + {x});
      }
      assert LiveSet(rows) == LiveSet(rows) + {x};
      return Ok(deleted);
    case CheckpointDeleted =>
      if mutation.Delete? {
        return Err(RelationshipNotFound(x));
      }
      TombstoneLifted(rows, x);
      return Ok(deleted - {x});
    case Absent =>
      if mutation.Delete? {
        return Err(RelationshipNotFound(x));
      }
      var added := InsertAbsent(checkpoint, inserted, deleted, x);
      if added.Err? {
        return Err(added.error);
      }
      return Ok(deleted);
  }

  // ---------------------------------------------------------------- the view

  ghost predicate AllPass(rows: Rows, preconditions: seq<Precondition>) {
    && |preconditions| <= MAX_PRECONDITIONS_PER_BATCH
    && (forall i :: 0 <= i < |preconditions| ==> PassesPrecondition(rows, preconditions[i]))
  }

  /** The batch passes every check made before its mutations are applied. */
  ghost predicate Admitted(rows: Rows, mutations: seq<Mutation>, preconditions: seq<Precondition>) {
    && AllPass(rows, preconditions)
    && |mutations| <= MAX_MUTATIONS_PER_BATCH && DistinctTargets(mutations)
  }

  ghost predicate PassesPrecondition(rows: Rows, precondition: Precondition) {
    match precondition
    case MustMatch(filter) => AnyMatch(rows, filter)
    case MustNotMatch(filter) => !AnyMatch(rows, filter)
  }

  function SelectLive(stored: seq<Relationship>, deleted: set<Relationship>): seq<Relationship> {
    Select(stored, (x: Relationship) => x !in deleted)
  }

  lemma ListedOnce(rows: Rows)
    requires Overlays(rows)
    ensures NoRepeatedRelationships(SelectLive(rows.checkpoint, rows.deleted) + rows.inserted)
    ensures Members(SelectLive(rows.checkpoint, rows.deleted) + rows.inserted) == LiveSet(rows)
  {
    var deleted := rows.deleted;
    var alive := (x: Relationship) => x !in deleted;
    SelectMembers(rows.checkpoint, alive);
    SelectedOnce(rows.checkpoint, alive);
    var left := SelectLive(rows.checkpoint, rows.deleted);
    forall i, j | 0 <= i < |left| && 0 <= j < |rows.inserted| ensures left[i] != rows.inserted[j] {
      assert left[i] in Members(rows.checkpoint) && rows.inserted[j] in Members(rows.inserted);
    }
  }

  /** The tombstones, once as relationships and once as checkpoint rows. */
  ghost predicate Tombstones(names: seq<string>, deletedRows: set<Row>, deleted: set<Relationship>) {
    forall row :: Resolves(row, |names|) ==> (row in deletedRows <==> ToRelationship(names, row) in deleted)
  }

  datatype StoreDelta = StoreDelta(inserted: IndexedRelationshipStore, deletedRows: set<Row>, deleted: set<Relationship>, mutationCount: nat)

  class RelationshipStoreView {
    const checkpoint: IndexedRelationshipStore
    const delta: Option<StoreDelta>

    ghost predicate Valid()
      reads this, checkpoint, checkpoint.Parts(), if delta.Some? then {delta.value.inserted} + delta.value.inserted.Parts() else {}
    {
      && checkpoint.Valid() && !checkpoint.uniqueness.UntrustedNotIndexed?
      && (delta.Some? ==>
            && delta.value.inserted.Valid() && delta.value.inserted.uniqueness.Ready? && delta.value.inserted.HashBacked()
            && Tombstones(checkpoint.Names(), delta.value.deletedRows, delta.value.deleted)
            && Overlays(Rows()))
    }

    constructor FromCheckpoint(checkpoint: IndexedRelationshipStore)
      requires checkpoint.Valid() && !checkpoint.uniqueness.UntrustedNotIndexed?
      ensures Valid() && this.checkpoint == checkpoint && delta.None?
      ensures Rows() == Vocabulary.Rows([], checkpoint.Contents(), {})
    {
      this.checkpoint, delta := checkpoint, None;
    }

    constructor Over(checkpoint: IndexedRelationshipStore, delta: StoreDelta)
      ensures this.checkpoint == checkpoint && this.delta == Some(delta)
    {
      this.checkpoint, this.delta := checkpoint, Some(delta);
    }

    /** The view as its readers see it. */
    ghost function Rows(): Rows
      requires checkpoint.Structured() && (delta.Some? ==> delta.value.inserted.Structured())
      reads this, checkpoint, checkpoint.Parts(), if delta.Some? then {delta.value.inserted} + delta.value.inserted.Parts() else {}
    {
      match delta
      case None => Vocabulary.Rows([], checkpoint.Contents(), {})
      case Some(overlay) => Vocabulary.Rows(overlay.inserted.Contents(), checkpoint.Contents(), overlay.deleted)
    }

    function Deleted(): set<Relationship> {
      if delta.Some? then delta.value.deleted else {}
    }

    /** Drops the checkpoint rows the tombstones name. */
    method WithoutTombstones(found: seq<Relationship>) returns (r: seq<Relationship>)
      requires Valid() && forall x :: x in found ==> x in checkpoint.Contents()
      ensures var gone := Deleted(); r == Select(found, (x: Relationship) => x !in gone)
    {
      hide KeysOf, ListedIn, StrictOrder, TableValid, TablesValid, Filed, TablesFind, SortedFinds, NamesOf, LiveRelationships, KeyRows, AllDiffer, Select;
      ghost var gone := Deleted();
      ghost var alive := (x: Relationship) => x !in gone;
      if delta.None? {
        AllSelected(found, alive);
        return found;
      }
      r := [];
      NoneSelected<Relationship>([], alive);
      for i := 0 to |found|
        invariant r == Select(found[..i], alive)
      {
        SelectNext(found, i, alive);
        assert found[i] in checkpoint.Contents();
        var row := checkpoint.LookupRow(found[i]);
        if row.value !in delta.value.deletedRows {
          r := r + [found[i]];
        }
      }
      assert found[..|found|] == found;
    }

    /** A query goes through the delta's insertions and then through the checkpoint; the limit counts in
        each segment before tombstones are dropped. */
    method QueryRelationships(filter: RelationshipFilter) returns (r: seq<Relationship>)
      requires Valid()
      ensures r == Query(Rows(), Matching(filter), AtMost(filter.limit))
    {
      hide KeysOf, ListedIn, StrictOrder, TableValid, TablesValid, Filed, TablesFind, SortedFinds, NamesOf, LiveRelationships, KeyRows, AllDiffer;
      hide Tombstones, Overlays, Select;
      var inserted: seq<Relationship> := [];
      ghost var keep := Matching(filter);
      if delta.Some? {
        inserted := delta.value.inserted.QueryRelationships(filter);
      } else {
        NoneSelected<Relationship>([], keep);
      }
      var stored := checkpoint.QueryRelationships(filter);
      SelectMembers(checkpoint.Contents(), keep);
      var surviving := WithoutTombstones(stored);
      r := inserted + surviving;
    }

    method ReverseQueryRelationships(filter: SubjectFilter) returns (r: seq<Relationship>)
      requires Valid()
      ensures r == Query(Rows(), MatchingSubject(filter), Unbounded)
    {
      hide KeysOf, ListedIn, StrictOrder, TableValid, TablesValid, Filed, TablesFind, SortedFinds, NamesOf, LiveRelationships, KeyRows, AllDiffer;
      hide Tombstones, Overlays, Select;
      var inserted: seq<Relationship> := [];
      ghost var keep := MatchingSubject(filter);
      if delta.Some? {
        inserted := delta.value.inserted.ReverseQueryRelationships(filter);
      } else {
        NoneSelected<Relationship>([], keep);
      }
      var stored := checkpoint.ReverseQueryRelationships(filter);
      SelectMembers(checkpoint.Contents(), keep);
      var surviving := WithoutTombstones(stored);
      r := inserted + surviving;
    }

    /** Whether some segment posts a row for the filter; tombstoned and dead rows count. */
    ghost predicate Posts(filter: SubjectFilter)
      requires checkpoint.Structured() && (delta.Some? ==> delta.value.inserted.Structured())
      reads this, checkpoint, checkpoint.Parts(), if delta.Some? then {delta.value.inserted} + delta.value.inserted.Parts() else {}
    {
      checkpoint.Posts(filter) || (delta.Some? && delta.value.inserted.Posts(filter))
    }

    method HasReverseSubjectCandidates(filter: SubjectFilter) returns (r: bool)
      requires Valid()
      ensures r == Posts(filter)
      ensures (exists x :: Live(Rows(), x) && MatchesSubject(x.subject, filter)) ==> r
    {
      hide KeysOf, ListedIn, StrictOrder, TableValid, TablesValid, Filed, TablesFind, SortedFinds, NamesOf, LiveRelationships, KeyRows, AllDiffer;
      hide Tombstones, Overlays, SomeRowNames;
      r := false;
      if delta.Some? {
        r := delta.value.inserted.HasSubjectCandidates(filter);
      }
      var stored := checkpoint.HasSubjectCandidates(filter);
      r := r || stored;
    }

    /** The live relationships: the checkpoint's, less the tombstones, and then the delta's. */
    method LiveRelationshipList() returns (r: seq<Relationship>)
      requires Valid()
      ensures NoRepeatedRelationships(r) && Members(r) == LiveSet(Rows())
    {
      hide KeysOf, ListedIn, StrictOrder, TableValid, TablesValid, Filed, TablesFind, SortedFinds, NamesOf, LiveRelationships, KeyRows, AllDiffer, Select;
      r := checkpoint.LiveRelationshipList();
      checkpoint.ContentsAreDistinct();
      if delta.None? {
        assert Members(r) == LiveSet(Rows());
        return;
      }
      var inserted := delta.value.inserted.LiveRelationshipList();
      ListedOnce(Rows());
      var deleted := delta.value.deleted;
      r := SelectLive(r, deleted) + inserted;
    }

    method CheckPrecondition(precondition: Precondition) returns (r: Outcome)
      requires Valid()
      ensures r == if PassesPrecondition(Rows(), precondition) then Ok(()) else Err(PreconditionFailed(precondition))
    {
      hide KeysOf, ListedIn, StrictOrder, TableValid, TablesValid, Filed, TablesFind, SortedFinds, NamesOf, LiveRelationships, KeyRows, AllDiffer, Select;
      var matches := QueryRelationships(precondition.filter);
      r := if (precondition.MustMatch? && matches == []) || (precondition.MustNotMatch? && matches != [])
        then Err(PreconditionFailed(precondition)) else Ok(());
    }

    /** The checkpoint with its identity index at hand: its own if it has one, a copy's otherwise. A
        checkpoint without duplicates can always be indexed. */
    method MutationReadyCheckpoint() returns (r: IndexedRelationshipStore)
      requires Valid()
      ensures r.Valid() && r.uniqueness.Ready? && r.Contents() == checkpoint.Contents()
      ensures r.symbolHash == checkpoint.symbolHash && r.rowHash == checkpoint.rowHash
    {
      hide KeysOf, ListedIn, StrictOrder, TableValid, TablesValid, Filed, TablesFind, SortedFinds, NamesOf, LiveRelationships, KeyRows, Select;
      if checkpoint.uniqueness.Ready? {
        return checkpoint;
      }
      r := checkpoint.Clone();
      var ready := r.EnsureUniquenessIndex();
    }

    /** The delta's insertions, copied to be built upon; an empty store if there are none. */
    method InsertedCopy() returns (r: IndexedRelationshipStore)
      requires Valid()
      ensures fresh(r) && fresh(r.interner) && fresh(r.live) && fresh(r.postings)
      ensures r.Valid() && r.uniqueness.Ready? && fresh(r.uniqueness.index) && r.HashBacked() && r.Contents() == Rows().inserted
    {
      hide KeysOf, ListedIn, StrictOrder, TableValid, TablesValid, Filed, TablesFind, SortedFinds, NamesOf, LiveRelationships, KeyRows, AllDiffer;
      if delta.Some? {
        r := delta.value.inserted.Clone();
      } else {
        r := new IndexedRelationshipStore(checkpoint.symbolHash, checkpoint.rowHash);
      }
    }

    method CheckPreconditions(preconditions: seq<Precondition>) returns (r: Outcome)
      requires Valid()
      ensures r.Ok? <==> AllPass(Rows(), preconditions)
      ensures r.Err? ==> !r.error.OutOfCapacity?
    {
      hide KeysOf, ListedIn, StrictOrder, TableValid, TablesValid, Filed, TablesFind, SortedFinds, NamesOf, LiveRelationships, KeyRows, AllDiffer, Select, Overlays, Tombstones;
      if |preconditions| > MAX_PRECONDITIONS_PER_BATCH {
        return Err(PreconditionBatchTooLarge(MAX_PRECONDITIONS_PER_BATCH, |preconditions|));
      }
      for i := 0 to |preconditions|
        invariant forall k :: 0 <= k < i ==> PassesPrecondition(Rows(), preconditions[k])
      {
        var checked := CheckPrecondition(preconditions[i]);
        if checked.Err? {
          return checked;
        }
      }
      r := Ok(());
    }

    /** Applies a batch to a new view; this one stays as it is. Short of running out of capacity, the batch
        succeeds exactly if its preconditions pass, it names no relationship twice, and each mutation
        applies, and the new view then holds what the mutations make of this one's relationships, whether
        or not the delta was folded into a new checkpoint. */
    method ApplyMutations(mutations: seq<Mutation>, preconditions: seq<Precondition>) returns (r: Result<RelationshipStoreView, StoreError>)
      requires Valid()
      ensures r.Ok? ==> r.value.Valid() && Admitted(Rows(), mutations, preconditions)
      ensures r.Ok? ==> StepsSpec(LiveSet(Rows()), mutations) == Ok(LiveSet(r.value.Rows()))
      ensures r.Err? && !r.error.OutOfCapacity? ==>
        (Admitted(Rows(), mutations, preconditions) ==> StepsSpec(LiveSet(Rows()), mutations) == Err(r.error))
    {
      hide KeysOf, ListedIn, StrictOrder, TableValid, TablesValid, Filed, TablesFind, SortedFinds, NamesOf, LiveRelationships, KeyRows, AllDiffer, Select, StepSpec, Overlays, Tombstones, LiveSet, AllPass;
      var checked := CheckPreconditions(preconditions);
      if checked.Err? {
        return Err(checked.error);
      }
      if |mutations| > MAX_MUTATIONS_PER_BATCH {
        return Err(MutationBatchTooLarge(MAX_MUTATIONS_PER_BATCH, |mutations|));
      }
      var duplicate := FindDuplicate(mutations);
      if duplicate.Some? {
        return Err(DuplicateMutation(duplicate.value));
      }
      if mutations == [] {
        return Ok(this);
      }
      r := ApplyToDelta(mutations);
    }

    lemma RowsOverlay()
      requires Valid()
      ensures Overlays(Rows())
    {
      checkpoint.ContentsAreDistinct();
    }

    /** What a batch starts from: an indexed checkpoint and a copy of the delta's insertions. */
    method StartDelta() returns (base: IndexedRelationshipStore, inserted: IndexedRelationshipStore)
      requires Valid()
      ensures fresh(inserted) && fresh(inserted.interner) && fresh(inserted.live) && fresh(inserted.postings)
      ensures Working(base, inserted, Deleted()) && fresh(inserted.uniqueness.index)
      ensures Vocabulary.Rows(inserted.Contents(), base.Contents(), Deleted()) == old(Rows())
    {
      hide KeysOf, ListedIn, StrictOrder, TableValid, TablesValid, Filed, TablesFind, SortedFinds, NamesOf, LiveRelationships, KeyRows, AllDiffer, Select, Overlays, LiveSet, Tombstones;
      RowsOverlay();
      base := MutationReadyCheckpoint();
      inserted := InsertedCopy();
    }

    method ApplyToDelta(mutations: seq<Mutation>) returns (r: Result<RelationshipStoreView, StoreError>)
      requires Valid() && mutations != []
      ensures r.Ok? ==> r.value.Valid() && StepsSpec(LiveSet(old(Rows())), mutations) == Ok(LiveSet(r.value.Rows()))
      ensures r.Err? && !r.error.OutOfCapacity? ==> StepsSpec(LiveSet(old(Rows())), mutations) == Err(r.error)
    {
      hide KeysOf, ListedIn, StrictOrder, TableValid, TablesValid, Filed, TablesFind, SortedFinds, NamesOf, LiveRelationships, KeyRows, AllDiffer, Select, StepsSpec, Overlays, LiveSet, Tombstones;
      var base, inserted := StartDelta();
      var mutationCount := (if delta.Some? then delta.value.mutationCount else 0) + |mutations|;
      r := BuildView(base, inserted, Deleted(), mutations, mutationCount, LiveSet(old(Rows())));
    }
  }

  /** Applies a batch to a delta under construction and publishes it. `before` is what the two segments
      stand for at the start. */
  method BuildView(checkpoint: IndexedRelationshipStore, inserted: IndexedRelationshipStore, deleted: set<Relationship>,
                   mutations: seq<Mutation>, mutationCount: nat, ghost before: set<Relationship>)
    returns (r: Result<RelationshipStoreView, StoreError>)
    requires Working(checkpoint, inserted, deleted) && before == LiveSet(Rows(inserted.Contents(), checkpoint.Contents(), deleted))
    modifies inserted`rows, inserted`deadRowCount, inserted.interner, inserted.live, inserted.postings, inserted.uniqueness.index
    ensures r.Ok? ==> r.value.Valid() && StepsSpec(before, mutations) == Ok(LiveSet(r.value.Rows()))
    ensures r.Err? && !r.error.OutOfCapacity? ==> StepsSpec(before, mutations) == Err(r.error)
  {
    hide KeysOf, ListedIn, StrictOrder, TableValid, TablesValid, Filed, TablesFind, SortedFinds, NamesOf, LiveRelationships, KeyRows, AllDiffer, Select, StepSpec, Overlays, LiveSet;
    var current := deleted;
    for i := 0 to |mutations|
      invariant Working(checkpoint, inserted, current)
      invariant StepsSpec(before, mutations) == StepsSpec(LiveSet(Rows(inserted.Contents(), checkpoint.Contents(), current)), mutations[i..])
    {
      assert mutations[i..][1..] == mutations[i + 1..];
      current :- ApplyDelta(checkpoint, inserted, current, mutations[i]);
    }
    r := Publish(checkpoint, inserted, current, mutationCount);
  }

  /** Folds a delta into a new checkpoint; the relationships stay the same. */
  method Fold(view: RelationshipStoreView) returns (r: Result<RelationshipStoreView, StoreError>)
    requires view.Valid()
    ensures r.Err? ==> r.error.OutOfCapacity?
    ensures r.Ok? ==> r.value.Valid() && r.value.delta.None? && LiveSet(r.value.Rows()) == LiveSet(old(view.Rows()))
  {
    hide KeysOf, ListedIn, StrictOrder, TableValid, TablesValid, Filed, TablesFind, SortedFinds, NamesOf, LiveRelationships, KeyRows, AllDiffer, Select, Overlays, Tombstones;
    var relationships := view.LiveRelationshipList();
    var store := StoreOf(view.checkpoint.symbolHash, view.checkpoint.rowHash, relationships);
    if store.Err? {
      return Err(store.error);
    }
    var folded := new RelationshipStoreView.FromCheckpoint(store.value);
    assert Members(relationships) == LiveSet(folded.Rows());
    r := Ok(folded);
  }

  method Publish(checkpoint: IndexedRelationshipStore, inserted: IndexedRelationshipStore, deleted: set<Relationship>, mutationCount: nat)
    returns (r: Result<RelationshipStoreView, StoreError>)
    requires Working(checkpoint, inserted, deleted)
    ensures r.Err? ==> r.error.OutOfCapacity?
    ensures r.Ok? ==> r.value.Valid() && LiveSet(r.value.Rows()) == LiveSet(Rows(inserted.Contents(), checkpoint.Contents(), deleted))
  {
    hide KeysOf, ListedIn, StrictOrder, TableValid, TablesValid, Filed, TablesFind, SortedFinds, NamesOf, LiveRelationships, KeyRows, AllDiffer, Select;
    var deletedRows := DeletedRows(checkpoint, deleted);
    var candidate := new RelationshipStoreView.Over(checkpoint, StoreDelta(inserted, deletedRows, deleted, mutationCount));
    assert candidate.Valid();
    if mutationCount >= MAX_DELTA_MUTATIONS || |deleted| >= MAX_DELTA_TOMBSTONES {
      r := Fold(candidate);
      return;
    }
    r := Ok(candidate);
  }

  /** The checkpoint rows of the tombstones. */
  method DeletedRows(checkpoint: IndexedRelationshipStore, deleted: set<Relationship>) returns (r: set<Row>)
    requires checkpoint.Valid() && deleted <= Members(checkpoint.Contents())
    ensures Tombstones(checkpoint.Names(), r, deleted)
  {
    hide KeysOf, ListedIn, StrictOrder, TableValid, TablesValid, Filed, TablesFind, SortedFinds, NamesOf, LiveRelationships, KeyRows, AllDiffer, ToRelationship;
    r := {};
    var left := deleted;
    while left != {}
      invariant left <= deleted
      invariant Tombstones(checkpoint.Names(), r, deleted - left)
      decreases |left|
    {
      var x :| x in left;
      left := left - {x};
      assert x in checkpoint.Contents();
      var row := checkpoint.LookupRow(x);
      forall other | Resolves(other, |checkpoint.Names()|)
        ensures other in r + {row.value} <==> ToRelationship(checkpoint.Names(), other) in deleted - left
      {
        RowsAreRelationships(checkpoint.Names(), other, row.value);
      }
      r := r + {row.value};
    }
    assert deleted - left == deleted;
  }

  // ---------------------------------------------------------------- what the evaluator asks

  lemma {:induction false} SameSelection<T>(items: seq<T>, left: T -> bool, right: T -> bool)
    requires forall x :: left(x) == right(x)
    ensures Select(items, left) == Select(items, right)
  {
    if items != [] {
      SameSelection(items[1..], left, right);
    }
  }

  lemma SameQuery(rows: Rows, left: Relationship -> bool, right: Relationship -> bool, limit: QueryLimit)
    requires forall x :: left(x) == right(x)
    ensures Query(rows, left, limit) == Query(rows, right, limit)
  {
    SameSelection(rows.inserted, left, right);
    SameSelection(rows.checkpoint, left, right);
  }

  /** The two row queries the evaluator makes are queries of the view by resource, relation and subject. */
  lemma EvaluatorQueriesAreViewQueries(rows: Rows, resource: Object, relation: string, subject: SubjectFilter, limit: nat)
    ensures ResourceRelation(rows, resource, relation, AtMost(limit))
            == Query(rows, Matching(RelationshipFilter(resource.namespace, Some(resource.id), Some(relation), None, limit)), AtMost(limit))
    ensures AnyResourceRelationSubject(rows, resource, relation, subject)
            <==> AnyMatch(rows, RelationshipFilter(resource.namespace, Some(resource.id), Some(relation), Some(subject), 1))
  {
    SameQuery(rows, OnResourceRelation(resource, relation),
              Matching(RelationshipFilter(resource.namespace, Some(resource.id), Some(relation), None, limit)), AtMost(limit));
    SameQuery(rows, OnResourceRelationSubject(resource, relation, subject),
              Matching(RelationshipFilter(resource.namespace, Some(resource.id), Some(relation), Some(subject), 1)), AtMost(1));
  }
}
