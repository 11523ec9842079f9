/** The indexed relationship store: interned rows, a live-row set, an identity index and posting lists,
    which together stand for one sequence of distinct relationships. */
module RelationshipStore {
  import opened Vocabulary
  import opened Interner
  import opened IdentityIndex
  import opened LiveRows
  import opened PostingIndex
  import opened StoredRows
  import opened StoreCapacity

  const MAX_MUTATIONS_PER_BATCH := 10_000
  const MAX_PRECONDITIONS_PER_BATCH := 100
  const COMPACT_DEAD_ROWS := 100_000

  datatype Mutation =
    | Create(relationship: Relationship)
    | Touch(relationship: Relationship)
    | Delete(relationship: Relationship)

  datatype Precondition = MustMatch(filter: RelationshipFilter) | MustNotMatch(filter: RelationshipFilter)

  datatype StoreError =
    | RelationshipAlreadyExists(relationship: Relationship)
    | RelationshipNotFound(relationship: Relationship)
    | DuplicateMutation(relationship: Relationship)
    | PreconditionFailed(precondition: Precondition)
    | PreconditionBatchTooLarge(limit: nat, actual: nat)
    | MutationBatchTooLarge(limit: nat, actual: nat)
    | OutOfCapacity(component: string)
    | InternalInvariant(reason: string)

  type Outcome = Result<(), StoreError>

  /** Whether duplicates have been ruled out, and whether the index that does so is at hand. */
  datatype Uniqueness = Ready(index: RelationshipIdentityIndex) | KnownUniqueButNotIndexed | UntrustedNotIndexed

  // ---------------------------------------------------------------- what a batch means

  function Members(items: seq<Relationship>): set<Relationship> { set x | x in items }

  function StepSpec(contents: set<Relationship>, mutation: Mutation): Result<set<Relationship>, StoreError> {
    match mutation
    case Create(x) => if x in contents then Err(RelationshipAlreadyExists(x)) else Ok(contents + {x})
    case Touch(x) => Ok(contents + {x})
    case Delete(x) => if x in contents then Ok(contents - {x}) else Err(RelationshipNotFound(x))
  }

  function StepsSpec(contents: set<Relationship>, mutations: seq<Mutation>): Result<set<Relationship>, StoreError>
    decreases |mutations|
  {
    if mutations == [] then Ok(contents)
    else
      var next :- StepSpec(contents, mutations[0]);
      StepsSpec(next, mutations[1..])
  }

  ghost predicate PreconditionHolds(contents: set<Relationship>, precondition: Precondition) {
    match precondition
    case MustMatch(filter) => exists x :: x in contents && MatchesResource(x, filter)
    case MustNotMatch(filter) => !exists x :: x in contents && MatchesResource(x, filter)
  }

  ghost predicate AllHold(contents: set<Relationship>, preconditions: seq<Precondition>) {
    forall i :: 0 <= i < |preconditions| ==> PreconditionHolds(contents, preconditions[i])
  }

  predicate DistinctTargets(mutations: seq<Mutation>) {
    forall i, j :: 0 <= i < j < |mutations| ==> mutations[i].relationship != mutations[j].relationship
  }

  ghost predicate Asserts(mutations: seq<Mutation>, x: Relationship) {
    exists i :: 0 <= i < |mutations| && !mutations[i].Delete? && mutations[i].relationship == x
  }

  ghost predicate Deletes(mutations: seq<Mutation>, x: Relationship) {
    exists i :: 0 <= i < |mutations| && mutations[i] == Delete(x)
  }

  /** Creates name absent relationships and deletes present ones. */
  ghost predicate Applicable(contents: set<Relationship>, mutations: seq<Mutation>) {
    forall i :: 0 <= i < |mutations| ==> StepSpec(contents, mutations[i]).Ok?
  }

  /** When no relationship is named twice, a batch succeeds exactly if each mutation would by itself, and
      the result is (S and what is created or touched) without what is deleted, in whatever order. */
  lemma {:induction false} StepsAreSetAlgebra(contents: set<Relationship>, mutations: seq<Mutation>)
    requires DistinctTargets(mutations)
    ensures StepsSpec(contents, mutations).Ok? <==> Applicable(contents, mutations)
    ensures StepsSpec(contents, mutations).Ok? ==> forall x ::
      x in StepsSpec(contents, mutations).value <==> (x in contents || Asserts(mutations, x)) && !Deletes(mutations, x)
    decreases |mutations|
  {
    if mutations != [] {
      var first, rest := mutations[0], mutations[1..];
      var step := StepSpec(contents, first);
      if step.Ok? {
        StepsAreSetAlgebra(step.value, rest);
        SplitTargets(mutations);
        forall i | 0 <= i < |rest| ensures StepSpec(step.value, rest[i]).Ok? <==> StepSpec(contents, mutations[i + 1]).Ok? {
          assert rest[i] == mutations[i + 1] && rest[i].relationship != first.relationship;
        }
      }
    }
  }

  lemma NoSteps(contents: set<Relationship>)
    ensures StepsSpec(contents, []) == Ok(contents)
  {
  }

  predicate AllTouches(mutations: seq<Mutation>) {
    forall i :: 0 <= i < |mutations| ==> mutations[i].Touch?
  }

  /** Batches that are not tried on a copy first. */
  predicate InPlace(mutations: seq<Mutation>) { |mutations| <= 1 || AllTouches(mutations) }

  function Named(mutations: seq<Mutation>): seq<Relationship> {
    seq(|mutations|, i requires 0 <= i < |mutations| => mutations[i].relationship)
  }

  lemma OneStep(contents: set<Relationship>, mutations: seq<Mutation>)
    requires |mutations| == 1
    ensures StepsSpec(contents, mutations) == StepSpec(contents, mutations[0])
  {
    assert mutations[1..] == [];
  }

  lemma NothingToInsert(present: seq<Relationship>, names: seq<string>)
    ensures Absent(present, Named([])) == [] && Unknown(names, AllIdentifiers([])) == 0 == UnknownBytes(names, AllIdentifiers([]))
  {
  }

  /** What is to be inserted from a touch on. */
  lemma AbsentFrom(present: seq<Relationship>, mutations: seq<Mutation>, i: nat)
    requires i < |mutations|
    ensures var x := mutations[i].relationship;
            var rest, further := Absent(present, Named(mutations[i..])), Absent(present, Named(mutations[i + 1..]));
            if x in present then rest == further else rest != [] && rest[0] == x && rest[1..] == further
  {
    assert Named(mutations[i..])[1..] == Named(mutations[i + 1..]);
  }

  /** What one more touch adds to the estimate. */
  lemma NextToInsert(present: seq<Relationship>, names: seq<string>, mutations: seq<Mutation>, i: nat)
    requires i < |mutations|
    ensures var x := mutations[i].relationship;
            var before, after := Absent(present, Named(mutations[..i])), Absent(present, Named(mutations[..i + 1]));
            && after == before + (if x in present then [] else [x])
            && Unknown(names, AllIdentifiers(after)) == Unknown(names, AllIdentifiers(before)) + (if x in present then 0 else Unknown(names, Identifiers(x)))
            && UnknownBytes(names, AllIdentifiers(after)) ==
               UnknownBytes(names, AllIdentifiers(before)) + (if x in present then 0 else UnknownBytes(names, Identifiers(x)))
  {
    hide Identifiers, Unknown, UnknownBytes;
    var x, before := mutations[i].relationship, Absent(present, Named(mutations[..i]));
    assert Named(mutations[..i + 1]) == Named(mutations[..i]) + [x];
    AbsentConcat(present, Named(mutations[..i]), [x]);
    assert Absent(present, [x]) == if x in present then [] else [x];
    IdentifiersConcat(before, [x]);
    assert AllIdentifiers([x]) == Identifiers(x) + AllIdentifiers([]) == Identifiers(x);
    UnknownConcat(names, AllIdentifiers(before), Identifiers(x));
    assert before + [] == before;
  }

  lemma SplitTargets(mutations: seq<Mutation>)
    requires mutations != []
    ensures forall x :: Asserts(mutations, x) <==> Asserts(mutations[1..], x) || (!mutations[0].Delete? && mutations[0].relationship == x)
    ensures forall x :: Deletes(mutations, x) <==> Deletes(mutations[1..], x) || mutations[0] == Delete(x)
    ensures DistinctTargets(mutations) ==>
      forall x :: Asserts(mutations[1..], x) || Deletes(mutations[1..], x) ==> x != mutations[0].relationship
  {
    var rest := mutations[1..];
    forall x ensures Asserts(mutations, x) <==> Asserts(rest, x) || (!mutations[0].Delete? && mutations[0].relationship == x) {
      if Asserts(rest, x) {
        var i :| 0 <= i < |rest| && !rest[i].Delete? && rest[i].relationship == x;
        assert mutations[i + 1] == rest[i];
      }
      if Asserts(mutations, x) {
        var i :| 0 <= i < |mutations| && !mutations[i].Delete? && mutations[i].relationship == x;
        assert i > 0 ==> rest[i - 1] == mutations[i];
      }
    }
    forall x ensures Deletes(mutations, x) <==> Deletes(rest, x) || mutations[0] == Delete(x) {
      if Deletes(rest, x) {
        var i :| 0 <= i < |rest| && rest[i] == Delete(x);
        assert mutations[i + 1] == rest[i];
      }
      if Deletes(mutations, x) {
        var i :| 0 <= i < |mutations| && mutations[i] == Delete(x);
        assert i > 0 ==> rest[i - 1] == mutations[i];
      }
    }
  }

  class IndexedRelationshipStore {
    const symbolHash: Hasher
    const rowHash: Row -> nat
    var interner: IdentifierInterner
    var rows: seq<Row>
    var live: LiveRows
    var deadRowCount: nat
    var uniqueness: Uniqueness
    var postings: PostingIndex<IndexKey>

    ghost function Parts(): set<object>
      reads this
    {
      {this, interner, live, postings} + if uniqueness.Ready? then {uniqueness.index} else {}
    }

    ghost function Names(): seq<string>
      requires Fits(interner.bytes, interner.entries)
      reads this, interner
    {
      interner.Names()
    }

    ghost function Alive(): set<RowId>
      reads this, live
    {
      set i: nat | i < |rows| && live.Contains(i)
    }

    ghost predicate Valid()
      reads this, Parts()
    {
      && Structured()
      && (uniqueness.Ready? ==> IndexAgrees())
      && (if uniqueness.UntrustedNotIndexed? then deadRowCount == 0 else AllDiffer(rows, Alive()))
      && forall key: IndexKey :: postings.Listed(key) == KeyRows(rows, key, |rows|)
    }

    /** Symbols resolve, and the live set fits the rows. */
    ghost predicate Structured()
      reads this, Parts()
    {
      && interner.Valid() && interner.hash == symbolHash
      && postings.Valid() && postings.less == KeyLess
      && AllResolve(rows, |Names()|)
      && (forall i: nat :: live.Contains(i) ==> i < |rows|)
      && (live.allLiveLen.Some? ==> live.allLiveLen.value == |rows|)
    }

    /** The identity index holds exactly the live rows. */
    ghost predicate IndexAgrees()
      requires uniqueness.Ready?
      reads this, live, uniqueness.index
    {
      && uniqueness.index.hash == rowHash
      && uniqueness.index.Valid(rows)
      && forall i: nat :: uniqueness.index.Holds(rows, i) <==> i in Alive()
    }

    /** What the store stands for: its live relationships in row order. */
    ghost function Contents(): seq<Relationship>
      requires Structured()
      reads this, Parts()
    {
      LiveRelationships(Names(), rows, Alive(), |rows|)
    }

    /** Only a trusted load uses the sorted symbol lookup. */
    ghost predicate HashBacked()
      reads this, interner
    {
      interner.sortedLookup == []
    }

    constructor (symbolHash: Hasher, rowHash: Row -> nat)
      ensures Valid() && Contents() == [] && uniqueness.Ready? && HashBacked()
      ensures this.symbolHash == symbolHash && this.rowHash == rowHash
      ensures fresh(interner) && fresh(live) && fresh(postings) && fresh(uniqueness.index)
    {
      hide StrictOrder, KeyLess, TablesFind, SortedFinds, TablesValid, KeysOf;
      this.symbolHash, this.rowHash := symbolHash, rowHash;
      interner := new IdentifierInterner(symbolHash);
      live := new LiveRows();
      rows, deadRowCount := [], 0;
      var index := new RelationshipIdentityIndex(rowHash);
      uniqueness := Ready(index);
      KeysAreOrdered();
      postings := new PostingIndex<IndexKey>(KeyLess);
    }

    constructor Of(symbolHash: Hasher, rowHash: Row -> nat, interner: IdentifierInterner, rows: seq<Row>, live: LiveRows,
                   deadRowCount: nat, uniqueness: Uniqueness, postings: PostingIndex<IndexKey>)
      ensures this.symbolHash == symbolHash && this.rowHash == rowHash && this.interner == interner && this.rows == rows && this.live == live
      ensures this.deadRowCount == deadRowCount && this.uniqueness == uniqueness && this.postings == postings
    {
      this.symbolHash, this.rowHash, this.interner, this.rows, this.live := symbolHash, rowHash, interner, rows, live;
      this.deadRowCount, this.uniqueness, this.postings := deadRowCount, uniqueness, postings;
    }

    /** Every relationship occurs once. */
    lemma ContentsAreDistinct()
      requires Valid() && !uniqueness.UntrustedNotIndexed?
      ensures NoRepeatedRelationships(Contents())
    {
      LiveDistinct(Names(), rows, Alive(), |rows|);
    }

    // -------------------------------------------------------------- symbols

    method LookupOptional(value: Option<string>) returns (found: bool, id: Option<SymbolId>)
      requires interner.Valid()
      ensures found ==> StoredRows.Names(interner.Names(), id, value)
      ensures !found ==> value.Some? && value.value !in interner.Names()
    {
      if value.None? {
        return true, None;
      }
      id := interner.Lookup(value.value);
      found := id.Some?;
    }

    /** The row a relationship would be stored as, if all its identifiers are known. */
    method LookupRow(relationship: Relationship) returns (r: Option<Row>)
      requires Structured()
      ensures r.Some? ==> Resolves(r.value, |Names()|) && ToRelationship(Names(), r.value) == relationship
      ensures r.None? ==> relationship !in Contents()
    {
      hide StrictOrder, AllResolve, TablesFind, SortedFinds, NoRepeats, NamesOf;
      var resourceType := interner.Lookup(relationship.resource.namespace);
      var resourceId := interner.Lookup(relationship.resource.id);
      var relation := interner.Lookup(relationship.relation);
      var subjectType := interner.Lookup(relationship.subject.entity.namespace);
      var subjectId := interner.Lookup(relationship.subject.entity.id);
      var found, subjectRelation :=
        LookupOptional(if relationship.subject.UsersetSubject? then Some(relationship.subject.relation) else None);
      if resourceType.Some? && resourceId.Some? && relation.Some? && subjectType.Some? && subjectId.Some? && found {
        return Some(Row(resourceType.value, resourceId.value, relation.value, subjectType.value, subjectId.value, subjectRelation));
      }
      r := None;
      if relationship in Contents() {
        LiveIsKnown(Names(), rows, Alive(), |rows|, relationship);
      }
    }

    /** Whether the store holds a relationship; without an identity index it cannot tell. */
    method ContainsRelationship(relationship: Relationship) returns (r: bool)
      requires Valid()
      ensures uniqueness.Ready? ==> r == (relationship in Contents())
      ensures !uniqueness.Ready? ==> !r
    {
      var row := LookupRow(relationship);
      if row.None? || !uniqueness.Ready? {
        return false;
      }
      var found := uniqueness.index.Find(rows, row.value);
      r := found.Some?;
      LiveMembers(Names(), rows, Alive(), |rows|, relationship);
      if !r {
        forall i: RowId | i < |rows| && i in Alive() ensures ToRelationship(Names(), rows[i]) != relationship {
          RowsAreRelationships(Names(), rows[i], row.value);
        }
      } else {
        assert found.value in Alive();
      }
    }

    // -------------------------------------------------------------- inserting

    ghost function Interned(): Symbols
      requires Fits(interner.bytes, interner.entries)
      reads this, interner
    {
      Symbols(interner.Names(), |interner.bytes|)
    }

    /** The symbol stands for the string. */
    ghost predicate Means(id: SymbolId, value: string)
      requires Fits(interner.bytes, interner.entries)
      reads this, interner
    {
      id < |interner.Names()| && interner.Names()[id] == value
    }

    method InternIdentifier(value: string) returns (r: Result<SymbolId, StoreError>)
      requires interner.Valid()
      modifies interner
      ensures Fits(interner.bytes, interner.entries) && old(interner.Names()) <= interner.Names()
      ensures (interner.sortedLookup == []) == old(interner.sortedLookup == [])
      ensures r.Ok? <==> old(Interned()).RoomFor([value])
      ensures r.Ok? ==> interner.Valid() && Means(r.value, value) && Interned() == old(Interned()).And([value])
      ensures r.Err? ==> r.error.OutOfCapacity? && (interner.sortedLookup == [] ==> interner.Valid())
    {
      hide TablesFind, SortedFinds, NoRepeats, Room, WithAll, BytesFor;
      RoomForOne(interner.Names(), |interner.bytes|, value);
      var interned := interner.Intern(value);
      match interned
      case Ok(id) => r := Ok(id);
      case Err(_) => r := Err(OutOfCapacity("identifier interner"));
    }

    /** Interns the two identifiers of an object. */
    method InternObject(entity: Object) returns (r: Result<(SymbolId, SymbolId), StoreError>)
      requires interner.Valid()
      modifies interner
      ensures Fits(interner.bytes, interner.entries) && old(interner.Names()) <= interner.Names()
      ensures (interner.sortedLookup == []) == old(interner.sortedLookup == [])
      ensures r.Ok? <==> old(Interned()).RoomFor(ObjectIdentifiers(entity))
      ensures r.Ok? ==> interner.Valid() && Means(r.value.0, entity.namespace) && Means(r.value.1, entity.id)
                        && Interned() == old(Interned()).And(ObjectIdentifiers(entity))
      ensures r.Err? ==> r.error.OutOfCapacity? && (interner.sortedLookup == [] ==> interner.Valid())
    {
      hide NamesOf, TablesFind, SortedFinds, NoRepeats, Fits, Symbols.And, Symbols.RoomFor;
      assert ObjectIdentifiers(entity) == [entity.namespace] + [entity.id];
      InTurn(Interned(), [entity.namespace], [entity.id]);
      var namespace :- InternIdentifier(entity.namespace);
      var id :- InternIdentifier(entity.id);
      r := Ok((namespace, id));
    }

    /** Interns the identifiers of a relationship. Symbols known before keep their meaning. It fails
        exactly if there is no room for them. */
    method InternRow(relationship: Relationship) returns (r: Result<Row, StoreError>)
      requires interner.Valid()
      modifies interner
      ensures Fits(interner.bytes, interner.entries) && old(interner.Names()) <= interner.Names()
      ensures (interner.sortedLookup == []) == old(interner.sortedLookup == [])
      ensures r.Ok? <==> old(Interned()).RoomFor(Identifiers(relationship))
      ensures r.Ok? ==> interner.Valid() && Interned() == old(Interned()).And(Identifiers(relationship))
      ensures r.Ok? ==> Resolves(r.value, |interner.Names()|) && ToRelationship(interner.Names(), r.value) == relationship
      ensures r.Err? ==> r.error.OutOfCapacity? && (interner.sortedLookup == [] ==> interner.Valid())
    {
      hide NamesOf, TablesFind, SortedFinds, NoRepeats, Fits, Symbols.And, Symbols.RoomFor, ObjectIdentifiers, Identifiers;
      RelationshipInTurn(Interned(), relationship);
      var resource :- InternObject(relationship.resource);
      var relation :- InternIdentifier(relationship.relation);
      var subject :- InternObject(relationship.subject.entity);
      var subjectRelation: Option<SymbolId> := None;
      if relationship.subject.UsersetSubject? {
        var id :- InternIdentifier(relationship.subject.relation);
        subjectRelation := Some(id);
      }
      r := Ok(Row(resource.0, resource.1, relation, subject.0, subject.1, subjectRelation));
    }

    method PostRow(row: Row, id: RowId)
      requires postings.Valid()
      modifies postings
      ensures postings.Valid()
      ensures forall key: IndexKey :: postings.Listed(key) == old(postings.Listed(key)) + if key in KeysOf(row) then [id] else []
    {
      hide KeysOf, ListedIn, StrictOrder, TableValid;
      var keys := KeysOf(row);
      KeysAreDistinct(row);
      for i := 0 to |keys|
        invariant postings.Valid()
        invariant forall key: IndexKey :: postings.Listed(key) == old(postings.Listed(key)) + if key in keys[..i] then [id] else []
      {
        postings.Insert(keys[i], id);
        assert keys[..i + 1] == keys[..i] + [keys[i]];
        assert keys[i] !in keys[..i];
      }
      assert keys[..|keys|] == keys;
    }

    /** Appends a row equal to no live one. */
    method AddRow(row: Row)
      requires Valid() && uniqueness.Ready? && Resolves(row, |Names()|)
      requires forall i :: i in Alive() ==> rows[i] != row
      modifies this`rows, live, postings, uniqueness.index
      ensures Valid() && Contents() == old(Contents()) + [ToRelationship(Names(), row)]
      ensures |rows| == old(|rows|) + 1
    {
      hide KeysOf, ListedIn, StrictOrder, TableValid, ToRelationship, TablesValid, Filed, TablesFind, SortedFinds, NoRepeats, KeyRows, AllDiffer, LiveRelationships, Resolves, NamesOf;
      var id := |rows|;
      ghost var before, alive := rows, Alive();
      uniqueness.index.Insert(rows, id, row, rows + [row]);
      PostRow(row, id);
      rows := rows + [row];
      live.Insert(id);
      assert Alive() == alive + {id};
      assert Structured();
      assert IndexAgrees();
      OneMoreRow(before, row);
      OneMoreDiffers(before, alive, row);
      OneMoreLive(Names(), before, alive, row);
    }

    method Insert(relationship: Relationship) returns (r: Outcome)
      requires Valid() && uniqueness.Ready? && relationship !in Contents()
      modifies this`rows, interner, live, postings, uniqueness.index
      ensures HashBacked() == old(HashBacked())
      ensures r.Ok? <==> old(|rows|) + 1 <= MAX_U32 && old(Interned()).RoomFor(Identifiers(relationship))
      ensures r.Ok? ==> Valid() && Contents() == old(Contents()) + [relationship]
      ensures r.Ok? ==> |rows| == old(|rows|) + 1 && Interned() == old(Interned()).And(Identifiers(relationship))
                        && old(Names()) <= Names()
      ensures r.Err? ==> r.error.OutOfCapacity? && (HashBacked() ==> Valid() && Contents() == old(Contents()))
    {
      hide KeysOf, ListedIn, StrictOrder, TableValid, ToRelationship, TablesValid, Filed, TablesFind, SortedFinds, NoRepeats, NamesOf,
           Symbols.And, Symbols.RoomFor, Identifiers;
      if |rows| + 1 > MAX_U32 {
        return Err(OutOfCapacity("relationship rows"));
      }
      ghost var names, contents := Names(), Contents();
      var interned := InternRow(relationship);
      GrownNamesKeep(names, Names(), rows, Alive(), |rows|);
      if interned.Err? {
        return Err(interned.error);
      }
      AbsentRowDiffers(Names(), rows, Alive(), interned.value, relationship);
      AddRow(interned.value);
      r := Ok(());
    }

    // -------------------------------------------------------------- deleting

    /** Removes a relationship exactly if it is there; its row stays behind, dead. */
    method DeleteRelationship(relationship: Relationship) returns (r: Outcome)
      requires Valid() && uniqueness.Ready?
      modifies this`deadRowCount, live, uniqueness.index
      ensures Valid()
      ensures r.Ok? <==> relationship in old(Contents())
      ensures Contents() == if r.Ok? then Select(old(Contents()), (x: Relationship) => x != relationship) else old(Contents())
      ensures r.Err? ==> r.error == RelationshipNotFound(relationship)
    {
      hide KeysOf, ListedIn, StrictOrder, TableValid, ToRelationship, TablesValid, Filed, TablesFind, SortedFinds, NamesOf, LiveRelationships, KeyRows, NoRepeats, BucketOf;
      var row := LookupRow(relationship);
      if row.None? {
        return Err(RelationshipNotFound(relationship));
      }
      ghost var alive := Alive();
      LiveRowOf(Names(), rows, alive, row.value);
      var removed := uniqueness.index.Remove(rows, row.value);
      if removed.None? {
        assert Alive() == alive;
        return Err(RelationshipNotFound(relationship));
      }
      LiveWithout(Names(), rows, alive, removed.value, |rows|);
      live.Remove(removed.value);
      deadRowCount := deadRowCount + 1;
      assert Alive() == alive - {removed.value};
      r := Ok(());
    }

    // -------------------------------------------------------------- the identity index of a loaded store

    method BuildUniquenessIndex() returns (r: Option<RelationshipIdentityIndex>)
      requires Structured()
      ensures r.None? ==> !AllDiffer(rows, Alive())
      ensures r.Some? ==> AllDiffer(rows, Alive())
      ensures r.Some? ==> fresh(r.value) && r.value.hash == rowHash && r.value.Valid(rows)
      ensures r.Some? ==> forall i: nat :: r.value.Holds(rows, i) <==> i in Alive()
    {
      hide Structured, TablesFind, SortedFinds, NamesOf, BucketValid;
      var index := new RelationshipIdentityIndex(rowHash);
      assert index.Valid(rows) by {
        NoTablesValid(rowHash, rows);
      }
      hide TablesValid, Filed;
      for i := 0 to |rows|
        invariant fresh(index) && index.hash == rowHash && index.Valid(rows)
        invariant forall j: nat :: index.Holds(rows, j) <==> j < i && j in Alive()
      {
        if live.Contains(i) {
          var found := index.Find(rows, rows[i]);
          if found.Some? {
            assert i in Alive() && found.value in Alive();
            return None;
          }
          index.Insert(rows, i, rows[i], rows);
        }
      }
      forall i: RowId, j: RowId | i in Alive() && j in Alive() && i != j ensures rows[i] != rows[j] {
        assert index.Holds(rows, i) && index.Holds(rows, j);
        index.HeldRowsDiffer(rows, i, j);
      }
      r := Some(index);
    }

    /** Builds the identity index of a loaded store. It fails exactly on duplicate live rows. */
    method EnsureUniquenessIndex() returns (r: Outcome)
      requires Valid()
      modifies this`uniqueness
      ensures Valid() && Contents() == old(Contents())
      ensures r.Ok? <==> AllDiffer(rows, Alive())
      ensures r.Ok? ==> uniqueness.Ready? && (uniqueness == old(uniqueness) || fresh(uniqueness.index))
      ensures r.Err? ==> uniqueness == old(uniqueness) && !uniqueness.Ready? && r.error.InternalInvariant?
    {
      hide KeysOf, ListedIn, StrictOrder, TableValid, ToRelationship, TablesFind, SortedFinds, NamesOf, TablesValid, AllDiffer, LiveRelationships;
      if uniqueness.Ready? {
        return Ok(());
      }
      var reason := if uniqueness.KnownUniqueButNotIndexed? then "full snapshot duplicate detector was dropped after validation"
        else "trusted snapshot contains duplicate relationship rows";
      var index := BuildUniquenessIndex();
      if index.None? {
        return Err(InternalInvariant(reason));
      }
      ghost var alive := Alive();
      uniqueness := Ready(index.value);
      assert Alive() == alive;
      r := Ok(());
    }

    // -------------------------------------------------------------- whole contents

    /** All live relationships, in row order. */
    method LiveRelationshipList() returns (r: seq<Relationship>)
      requires Valid()
      ensures r == Contents()
    {
      hide KeysOf, ListedIn, StrictOrder, TableValid, TablesFind, SortedFinds, TablesValid, NoRepeats, ToRelationship, AllDiffer, KeyRows, NamesOf;
      r := [];
      for i := 0 to |rows|
        invariant r == LiveRelationships(Names(), rows, Alive(), i)
      {
        if live.Contains(i) {
          var relationship := RelationshipOf(rows[i]);
          r := r + [relationship];
        }
      }
    }

    function RelationshipOf(row: Row): (relationship: Relationship)
      requires interner.Valid() && Resolves(row, |interner.Names()|)
      reads this, interner
      ensures relationship == ToRelationship(interner.Names(), row)
    {
      var entity := Object(interner.Resolve(row.subjectType).value, interner.Resolve(row.subjectId).value);
      Relationship(Object(interner.Resolve(row.resourceType).value, interner.Resolve(row.resourceId).value),
                   interner.Resolve(row.relation).value,
                   if row.subjectRelation.Some? then UsersetSubject(entity, interner.Resolve(row.subjectRelation.value).value)
                   else DirectSubject(entity))
    }

    // -------------------------------------------------------------- queries

    /** Walks a posting list: dead and mismatching rows are skipped, and the walk stops at the limit. */
    method CollectMatches(candidates: seq<RowId>, matcher: Matcher, limit: QueryLimit) returns (r: seq<Relationship>)
      requires Structured() && InRange(candidates, |rows|)
      ensures InRange(Take(Select<RowId>(candidates, Hit(rows, Alive(), matcher)), limit), |rows|)
      ensures r == RelationshipsAt(Names(), rows, Take(Select<RowId>(candidates, Hit(rows, Alive(), matcher)), limit))
    {
      hide StrictOrder, TableValid, TablesFind, SortedFinds, NoRepeats, ToRelationship, NamesOf, Select, RowMatches, RelationshipsAt;
      assert RelationshipsAt(Names(), rows, []) == [] by { NothingAt(Names(), rows); }
      ghost var hit := Hit(rows, Alive(), matcher);
      ghost var hits: seq<RowId> := [];
      var allLive := live.IsAllLive();
      r := [];
      NoneSelected<RowId>([], hit);
      for i := 0 to |candidates|
        invariant hits == Select<RowId>(candidates[..i], hit) && InRange(hits, |rows|)
        invariant r == RelationshipsAt(Names(), rows, hits) && |r| == |hits|
        invariant limit.AtMost? ==> |hits| <= limit.count
      {
        var id := candidates[i];
        var alive := allLive || live.Contains(id);
        assert alive <==> id in Alive();
        if alive && limit.AtMost? && |r| == limit.count {
          StoppedSelection(candidates, i, hit, limit.count);
          SelectedInRange(candidates, hit, |rows|);
          return;
        }
        SelectNext(candidates, i, hit);
        if alive && RowMatches(rows[id], matcher) {
          OneMoreAt(Names(), rows, hits, id);
          hits := hits + [id];
          var found := RelationshipOf(rows[id]);
          r := r + [found];
        }
      }
      assert candidates[..|candidates|] == candidates;
    }

    method SubjectMatcherFor(filter: SubjectFilter) returns (r: Option<SubjectMatcher>)
      requires Structured()
      ensures r.Some? ==> SubjectInSymbols(Names(), r.value, filter)
      ensures r.None? ==> !SomeRowNames(Names(), rows, filter)
      ensures r.None? ==> forall x :: x in Contents() ==> !MatchesSubject(x.subject, filter)
    {
      hide StrictOrder, TableValid, TablesFind, SortedFinds, NoRepeats, NamesOf, LiveRelationships;
      var subjectType := interner.Lookup(filter.subjectType);
      var idFound, subjectId := LookupOptional(filter.subjectId);
      var relationFound, relation := LookupOptional(filter.relation);
      if subjectType.Some? && idFound && relationFound {
        return Some(SubjectMatcher(subjectType.value, subjectId, relation));
      }
      r := None;
      LiveMatchIsNamed(Names(), rows, Alive(), filter);
    }

    method ResourceMatcherFor(filter: RelationshipFilter) returns (r: Option<ResourceMatcher>)
      requires Structured()
      ensures r.Some? ==> ResourceInSymbols(Names(), r.value, filter)
      ensures r.None? ==> forall x :: x in Contents() ==> !MatchesResource(x, filter)
    {
      hide StrictOrder, TableValid, TablesFind, SortedFinds, NoRepeats, NamesOf;
      var resourceType := interner.Lookup(filter.resourceType);
      var idFound, resourceId := LookupOptional(filter.resourceId);
      var relationFound, relation := LookupOptional(filter.relation);
      var subject: Option<SubjectMatcher> := None;
      if filter.subject.Some? {
        subject := SubjectMatcherFor(filter.subject.value);
      }
      if resourceType.Some? && idFound && relationFound && (filter.subject.Some? ==> subject.Some?) {
        return Some(ResourceMatcher(resourceType.value, resourceId, relation, subject));
      }
      r := None;
      forall x | x in Contents() ensures !MatchesResource(x, filter) {
        LiveIsKnown(Names(), rows, Alive(), |rows|, x);
      }
    }

    /** A resource-side query yields what a scan of all live relationships would, in row order, up to the
        limit. */
    method QueryRelationships(filter: RelationshipFilter) returns (r: seq<Relationship>)
      requires Valid()
      ensures r == Take(Select(Contents(), Matching(filter)), AtMost(filter.limit))
    {
      hide StrictOrder, TableValid, TablesFind, SortedFinds, NamesOf, KeysOf, ListedIn, Select, ToRelationship, TablesValid, LiveRelationships, RowMatchesResource;
      ghost var keep := Matching(filter);
      var found := ResourceMatcherFor(filter);
      if found.None? {
        NoneSelected(Contents(), keep);
        return [];
      }
      var matcher := OfResource(found.value);
      assert MatcherMeans(Names(), rows, matcher, keep) by {
        forall i | 0 <= i < |rows| { ResourceMatchesAlike(Names(), rows[i], found.value, filter); }
      }
      r := QueryPosted(matcher, AtMost(filter.limit), keep);
    }

    /** A subject-side query likewise, without a limit. */
    method ReverseQueryRelationships(filter: SubjectFilter) returns (r: seq<Relationship>)
      requires Valid()
      ensures r == Select(Contents(), MatchingSubject(filter))
    {
      hide StrictOrder, TableValid, TablesFind, SortedFinds, NamesOf, KeysOf, ListedIn, Select, ToRelationship, TablesValid, LiveRelationships, RowMatchesSubject;
      ghost var keep := MatchingSubject(filter);
      var found := SubjectMatcherFor(filter);
      if found.None? {
        NoneSelected(Contents(), keep);
        return [];
      }
      var matcher := OfSubject(found.value);
      assert MatcherMeans(Names(), rows, matcher, keep) by {
        forall i | 0 <= i < |rows| { SubjectMatchesAlike(Names(), rows[i], found.value, filter); }
      }
      r := QueryPosted(matcher, Unbounded, keep);
    }

    /** Whether the index still posts a row, dead or alive, for the filter. */
    ghost predicate Posts(filter: SubjectFilter)
      requires Structured()
      reads this, Parts()
    {
      SomeRowNames(Names(), rows, filter)
    }

    /** Looks at the posting list of the filter's key without visiting its rows. */
    method HasSubjectCandidates(filter: SubjectFilter) returns (r: bool)
      requires Valid()
      ensures r == Posts(filter)
      ensures (exists x :: x in Contents() && MatchesSubject(x.subject, filter)) ==> r
    {
      hide StrictOrder, TableValid, TablesFind, SortedFinds, NamesOf, KeysOf, ListedIn, Select, ToRelationship, TablesValid, LiveRelationships,
           RowMatchesSubject, NoRepeats, SubjectInSymbols;
      LiveMatchIsNamed(Names(), rows, Alive(), filter);
      var found := SubjectMatcherFor(filter);
      if found.None? {
        return false;
      }
      var key := MatcherKey(OfSubject(found.value));
      var candidates := postings.Candidates(key);
      KeyFindsNamed(Names(), rows, found.value, filter);
      r := candidates != [];
    }

    method QueryPosted(matcher: Matcher, limit: QueryLimit, ghost keep: Relationship -> bool) returns (r: seq<Relationship>)
      requires Valid() && MatcherMeans(Names(), rows, matcher, keep)
      ensures r == Take(Select(Contents(), keep), limit)
    {
      hide StrictOrder, TableValid, TablesFind, SortedFinds, NamesOf, KeysOf, ListedIn, Select, ToRelationship, TablesValid, RowMatches, LiveRelationships;
      var candidates := postings.Candidates(MatcherKey(matcher));
      KeyRowsInRange(rows, MatcherKey(matcher), |rows|);
      r := CollectMatches(candidates, matcher, limit);
      PostedQueryIsLinear(Names(), rows, Alive(), matcher, keep, limit);
    }

    // -------------------------------------------------------------- copying and compaction

    method Clone() returns (copy: IndexedRelationshipStore)
      requires Valid()
      ensures fresh(copy) && fresh(copy.interner) && fresh(copy.live) && fresh(copy.postings)
      ensures copy.uniqueness.Ready? ==> fresh(copy.uniqueness.index)
      ensures copy.symbolHash == symbolHash && copy.rowHash == rowHash
      ensures copy.Valid() && copy.Contents() == Contents() && copy.HashBacked() == HashBacked()
      ensures copy.uniqueness.Ready? == uniqueness.Ready? && copy.uniqueness.UntrustedNotIndexed? == uniqueness.UntrustedNotIndexed?
    {
      hide KeysOf, ListedIn, StrictOrder, TableValid, ToRelationship, TablesValid, Filed, TablesFind, SortedFinds, NamesOf, LiveRelationships, KeyRows, AllDiffer;
      var uniquenessCopy := uniqueness;
      if uniqueness.Ready? {
        var index := uniqueness.index.Clone(rows);
        uniquenessCopy := Ready(index);
      }
      var internerCopy := interner.Clone();
      var liveCopy := live.Clone();
      var postingsCopy := postings.Clone();
      copy := new IndexedRelationshipStore.Of(symbolHash, rowHash, internerCopy, rows, liveCopy, deadRowCount, uniquenessCopy, postingsCopy);
      assert copy.Alive() == Alive();
      assert copy.Structured();
    }

    /** Takes over another store's parts. */
    method Adopt(other: IndexedRelationshipStore)
      requires other != this && other.Valid() && other.symbolHash == symbolHash && other.rowHash == rowHash
      modifies this
      ensures Valid() && Contents() == old(other.Contents())
      ensures interner == other.interner && live == other.live && postings == other.postings && uniqueness == other.uniqueness
    {
      hide KeysOf, ListedIn, StrictOrder, TableValid, ToRelationship, TablesValid, Filed, TablesFind, SortedFinds, NamesOf, LiveRelationships, KeyRows, AllDiffer;
      interner, rows, live := other.interner, other.rows, other.live;
      deadRowCount, uniqueness, postings := other.deadRowCount, other.uniqueness, other.postings;
      assert Alive() == other.Alive();
    }

    /** Copies the live rows into an empty store once enough rows have died. */
    method CompactIfNeeded() returns (r: Outcome)
      requires Valid()
      modifies this
      ensures Valid() && Contents() == old(Contents())
      ensures r.Err? ==> r.error.OutOfCapacity?
    {
      hide KeysOf, ListedIn, StrictOrder, TableValid, TablesValid, Filed, TablesFind, SortedFinds, NamesOf, LiveRelationships, KeyRows, AllDiffer;
      if deadRowCount <= COMPACT_DEAD_ROWS && deadRowCount * 4 <= |rows| {
        return Ok(());
      }
      var relationships := LiveRelationshipList();
      ContentsAreDistinct();
      var compacted := StoreOf(symbolHash, rowHash, relationships);
      if compacted.Err? {
        return Err(compacted.error);
      }
      Adopt(compacted.value);
      r := Ok(());
    }

    // -------------------------------------------------------------- batches

    method ApplyMutation(mutation: Mutation) returns (r: Outcome)
      requires Valid() && uniqueness.Ready?
      modifies this`rows, this`deadRowCount, interner, live, postings, uniqueness.index
      ensures HashBacked() == old(HashBacked())
      ensures r.Ok? ==> Valid() && StepSpec(Members(old(Contents())), mutation) == Ok(Members(Contents()))
      ensures r.Err? && !r.error.OutOfCapacity? ==>
        Valid() && Contents() == old(Contents()) && StepSpec(Members(Contents()), mutation) == Err(r.error)
      ensures r.Err? && HashBacked() ==> Valid() && Contents() == old(Contents())
    {
      hide KeysOf, ListedIn, StrictOrder, TableValid, ToRelationship, TablesValid, Filed, TablesFind, SortedFinds, NamesOf, LiveRelationships, KeyRows, AllDiffer,
           Symbols.And, Symbols.RoomFor, Identifiers;
      ghost var before := Contents();
      match mutation
      case Create(relationship) =>
        var known := ContainsRelationship(relationship);
        if known {
          return Err(RelationshipAlreadyExists(relationship));
        }
        r := Insert(relationship);
        assert r.Ok? ==> Members(Contents()) == Members(before) + {relationship};
      case Touch(relationship) =>
        var known := ContainsRelationship(relationship);
        if known {
          assert Members(before) == Members(before) + {relationship};
          return Ok(());
        }
        r := Insert(relationship);
        assert r.Ok? ==> Members(Contents()) == Members(before) + {relationship};
      case Delete(relationship) =>
        r := DeleteRelationship(relationship);
        SelectMembers(before, (x: Relationship) => x != relationship);
        assert r.Ok? ==> Members(Contents()) == Members(before) - {relationship};
    }

    method CheckPrecondition(precondition: Precondition) returns (r: Outcome)
      requires Valid() && precondition.filter.limit > 0
      ensures r == if PreconditionHolds(Members(Contents()), precondition) then Ok(()) else Err(PreconditionFailed(precondition))
    {
      hide KeysOf, ListedIn, StrictOrder, TableValid, TablesValid, Filed, TablesFind, SortedFinds, NamesOf, LiveRelationships, KeyRows, AllDiffer;
      var matches := QueryRelationships(precondition.filter);
      var keep := Matching(precondition.filter);
      SelectMembers(Contents(), keep);
      assert matches == [] <==> Select(Contents(), keep) == [];
      assert matches != [] ==> Select(Contents(), keep)[0] in Select(Contents(), keep);
      r := if (precondition.MustMatch? && matches == []) || (precondition.MustNotMatch? && matches != [])
        then Err(PreconditionFailed(precondition)) else Ok(());
    }

    /** The relationships a batch of touches would insert. */
    ghost function ToInsert(mutations: seq<Mutation>): seq<Relationship>
      requires Structured()
      reads this, Parts()
    {
      Absent(Contents(), Named(mutations))
    }

    /** The estimate finds room for a batch of touches. */
    ghost predicate TouchesFit(mutations: seq<Mutation>)
      requires Structured()
      reads this, Parts()
    {
      BatchFits(Names(), Interned(), |rows|, ToInsert(mutations))
    }

    /** Counts what a batch of touches needs before any of it is applied. */
    method BatchHasRoom(mutations: seq<Mutation>) returns (r: bool)
      requires Valid() && uniqueness.Ready?
      ensures r == TouchesFit(mutations)
    {
      hide KeysOf, ListedIn, StrictOrder, TableValid, TablesValid, Filed, TablesFind, SortedFinds, NamesOf, LiveRelationships, KeyRows, AllDiffer,
           Identifiers, Unknown, UnknownBytes, Absent;
      interner.NamesAreEntries();
      var newRows, symbols, bytes := 0, 0, 0;
      NothingToInsert(Contents(), Names());
      for i := 0 to |mutations|
        invariant var absent := Absent(Contents(), Named(mutations[..i]));
                  && newRows == |absent| && symbols == Unknown(Names(), AllIdentifiers(absent))
                  && bytes == UnknownBytes(Names(), AllIdentifiers(absent))
      {
        NextToInsert(Contents(), Names(), mutations, i);
        var known := ContainsRelationship(mutations[i].relationship);
        if !known {
          var moreSymbols, moreBytes := CountUnknown(Identifiers(mutations[i].relationship));
          newRows, symbols, bytes := newRows + 1, symbols + moreSymbols, bytes + moreBytes;
        }
      }
      assert mutations[..|mutations|] == mutations;
      r := newRows == 0
           || (newRows + |rows| <= MAX_U32 && (symbols > 0 ==> |interner.entries| + symbols <= MAX_U32) && |interner.bytes| + bytes <= MAX_U32);
    }

    method CountUnknown(values: seq<string>) returns (symbols: nat, bytes: nat)
      requires interner.Valid()
      ensures symbols == Unknown(interner.Names(), values) && bytes == UnknownBytes(interner.Names(), values)
    {
      hide NamesOf, TablesFind, SortedFinds, NoRepeats;
      symbols, bytes := 0, 0;
      for i := 0 to |values|
        invariant symbols + Unknown(interner.Names(), values[i..]) == Unknown(interner.Names(), values)
        invariant bytes + UnknownBytes(interner.Names(), values[i..]) == UnknownBytes(interner.Names(), values)
      {
        assert values[i..][1..] == values[i + 1..];
        var known := interner.Lookup(values[i]);
        if known.None? {
          symbols, bytes := symbols + 1, bytes + |values[i]|;
        }
      }
    }

    /** Inserts a relationship unless it is there, where there is room for it. */
    method TouchWithRoom(relationship: Relationship)
      requires Valid() && uniqueness.Ready?
      requires relationship !in Contents() ==> |rows| + 1 <= MAX_U32 && Interned().RoomFor(Identifiers(relationship))
      modifies this`rows, interner, live, postings, uniqueness.index
      ensures Valid() && HashBacked() == old(HashBacked()) && old(Names()) <= Names()
      ensures Members(Contents()) == Members(old(Contents())) + {relationship}
      ensures relationship in old(Contents()) ==> |rows| == old(|rows|) && Interned() == old(Interned())
      ensures relationship !in old(Contents()) ==>
        |rows| == old(|rows|) + 1 && Interned() == old(Interned()).And(Identifiers(relationship))
    {
      hide KeysOf, ListedIn, StrictOrder, TableValid, TablesValid, Filed, TablesFind, SortedFinds, NamesOf, LiveRelationships, KeyRows, AllDiffer,
           Identifiers, Symbols.And, Symbols.RoomFor;
      var contained := ContainsRelationship(relationship);
      if !contained {
        var inserted := Insert(relationship);
      }
    }

    /** Applies a batch of touches in place. It succeeds exactly if the estimate finds room, and otherwise
        changes nothing. */
    method ApplyTouches(mutations: seq<Mutation>) returns (r: Outcome)
      requires Valid() && uniqueness.Ready? && DistinctTargets(mutations)
      requires forall i :: 0 <= i < |mutations| ==> mutations[i].Touch?
      modifies this`rows, this`deadRowCount, interner, live, postings, uniqueness.index
      ensures Valid() && HashBacked() == old(HashBacked())
      ensures r.Ok? <==> old(TouchesFit(mutations))
      ensures r.Ok? ==> StepsSpec(Members(old(Contents())), mutations) == Ok(Members(Contents()))
      ensures r.Err? ==> r.error.OutOfCapacity? && Contents() == old(Contents())
    {
      hide KeysOf, ListedIn, StrictOrder, TableValid, TablesValid, Filed, TablesFind, SortedFinds, NamesOf, LiveRelationships, KeyRows, AllDiffer,
           Identifiers, BatchFits, Symbols.And, Symbols.RoomFor, IndexedRelationshipStore.IndexAgrees, Absent;
      var room := BatchHasRoom(mutations);
      if !room {
        return Err(OutOfCapacity("relationship batch"));
      }
      ghost var known, present := Names(), Contents();
      ghost var spec := StepsSpec(Members(Contents()), mutations);
      for i := 0 to |mutations|
        invariant Valid() && HashBacked() == old(HashBacked()) && known <= Names()
        invariant spec == StepsSpec(Members(Contents()), mutations[i..])
        invariant forall k :: i <= k < |mutations| ==> (mutations[k].relationship in Members(Contents()) <==> mutations[k].relationship in present)
        invariant BatchFits(known, Interned(), |rows|, Absent(present, Named(mutations[i..])))
      {
        assert mutations[i..][0] == mutations[i] && mutations[i..][1..] == mutations[i + 1..];
        var relationship := mutations[i].relationship;
        AbsentFrom(present, mutations, i);
        if relationship !in present {
          FirstFits(known, Interned(), |rows|, Absent(present, Named(mutations[i..])));
        }
        TouchWithRoom(relationship);
      }
      r := Ok(());
    }

    /** Applies mutations one after the other, stopping at the first that fails. */
    method ApplyEach(mutations: seq<Mutation>) returns (r: Outcome)
      requires Valid() && uniqueness.Ready?
      modifies this`rows, this`deadRowCount, interner, live, postings, uniqueness.index
      ensures HashBacked() == old(HashBacked())
      ensures r.Ok? ==> Valid() && StepsSpec(Members(old(Contents())), mutations) == Ok(Members(Contents()))
      ensures r.Err? && !r.error.OutOfCapacity? ==> Valid() && StepsSpec(Members(old(Contents())), mutations) == Err(r.error)
      ensures r.Err? && !r.error.OutOfCapacity? && |mutations| == 1 ==> Contents() == old(Contents())
    {
      hide KeysOf, ListedIn, StrictOrder, TableValid, TablesValid, Filed, TablesFind, SortedFinds, NamesOf, LiveRelationships, KeyRows, AllDiffer, StepSpec;
      ghost var spec := StepsSpec(Members(Contents()), mutations);
      for i := 0 to |mutations|
        invariant Valid() && HashBacked() == old(HashBacked())
        invariant spec == StepsSpec(Members(Contents()), mutations[i..])
        invariant i == 0 ==> Contents() == old(Contents())
      {
        assert mutations[i..][1..] == mutations[i + 1..];
        var applied := ApplyMutation(mutations[i]);
        if applied.Err? {
          return applied;
        }
      }
      r := Ok(());
    }

    /** What has to hold for a batch to be tried at all. */
    ghost predicate Admissible(contents: set<Relationship>, mutations: seq<Mutation>, preconditions: seq<Precondition>) {
      && |preconditions| <= MAX_PRECONDITIONS_PER_BATCH && AllHold(contents, preconditions)
      && |mutations| <= MAX_MUTATIONS_PER_BATCH && DistinctTargets(mutations)
    }

    /** The checks made before anything is applied; they may build the identity index of a loaded store. */
    method CheckBatch(mutations: seq<Mutation>, preconditions: seq<Precondition>) returns (r: Outcome)
      requires Valid() && forall i :: 0 <= i < |preconditions| ==> preconditions[i].filter.limit > 0
      modifies this`uniqueness
      ensures Valid() && Contents() == old(Contents()) && TouchesFit(mutations) == old(TouchesFit(mutations))
      ensures uniqueness == old(uniqueness) || (uniqueness.Ready? && fresh(uniqueness.index))
      ensures r.Ok? ==> Admissible(Members(Contents()), mutations, preconditions) && (mutations != [] ==> uniqueness.Ready?)
      ensures r.Err? ==> !r.error.OutOfCapacity? && !(Admissible(Members(Contents()), mutations, preconditions) && old(uniqueness.Ready?))
    {
      hide KeysOf, ListedIn, StrictOrder, TableValid, TablesValid, Filed, TablesFind, SortedFinds, NamesOf, LiveRelationships, KeyRows, AllDiffer,
           PreconditionHolds, BatchFits, Absent;
      if |preconditions| > MAX_PRECONDITIONS_PER_BATCH {
        return Err(PreconditionBatchTooLarge(MAX_PRECONDITIONS_PER_BATCH, |preconditions|));
      }
      for i := 0 to |preconditions|
        invariant Valid() && Contents() == old(Contents()) && uniqueness == old(uniqueness)
        invariant TouchesFit(mutations) == old(TouchesFit(mutations))
        invariant forall k :: 0 <= k < i ==> PreconditionHolds(Members(Contents()), preconditions[k])
      {
        var checked := CheckPrecondition(preconditions[i]);
        if checked.Err? {
          return checked;
        }
      }
      if |mutations| > MAX_MUTATIONS_PER_BATCH {
        return Err(MutationBatchTooLarge(MAX_MUTATIONS_PER_BATCH, |mutations|));
      }
      if mutations != [] {
        var ready := EnsureUniquenessIndex();
        if ready.Err? {
          return ready;
        }
      }
      var duplicate := FindDuplicate(mutations);
      if duplicate.Some? {
        return Err(DuplicateMutation(duplicate.value));
      }
      r := Ok(());
    }

    /** What running out of capacity leaves behind: the contents as they were, unless the batch was applied in
        place and only compacting failed. */
    ghost predicate LeavesWhole(before: seq<Relationship>, mutations: seq<Mutation>)
      requires Structured()
      reads this, Parts()
    {
      Contents() == before || (InPlace(mutations) && StepsSpec(Members(before), mutations) == Ok(Members(Contents())))
    }

    /** Applies mutations one after another to a copy, which takes this store's place if all goes well. */
    method ApplyOnCopy(mutations: seq<Mutation>) returns (r: Outcome)
      requires Valid() && uniqueness.Ready? && DistinctTargets(mutations)
      modifies this, Parts()
      ensures Valid()
      ensures r.Ok? ==> StepsSpec(Members(old(Contents())), mutations) == Ok(Members(Contents()))
      ensures r.Err? ==> Contents() == old(Contents())
      ensures r.Err? && !r.error.OutOfCapacity? ==> StepsSpec(Members(Contents()), mutations) == Err(r.error)
    {
      hide IndexedRelationshipStore.Valid, IndexedRelationshipStore.Contents, IndexedRelationshipStore.HashBacked, StepsSpec, DistinctTargets;
      var candidate := Clone();
      r := candidate.ApplyEach(mutations);
      if r.Err? {
        return;
      }
      r := candidate.CompactIfNeeded();
      if r.Err? {
        return;
      }
      Adopt(candidate);
    }

    /** One mutation is applied in place; so are touches, once there is known to be room for them; any other
        batch is tried on a copy first. */
    method ApplyDistinct(mutations: seq<Mutation>) returns (r: Outcome)
      requires Valid() && (mutations != [] ==> uniqueness.Ready?) && DistinctTargets(mutations)
      modifies this, Parts()
      ensures r.Ok? ==> Valid() && StepsSpec(Members(old(Contents())), mutations) == Ok(Members(Contents()))
      ensures r.Err? && (old(HashBacked()) || |mutations| != 1) ==> Valid() && LeavesWhole(old(Contents()), mutations)
      ensures |mutations| > 1 && AllTouches(mutations) ==>
        Valid() && if old(TouchesFit(mutations)) then StepsSpec(Members(old(Contents())), mutations) == Ok(Members(Contents()))
                   else r.Err? && Contents() == old(Contents())
      ensures r.Err? && !r.error.OutOfCapacity? ==>
        Valid() && Contents() == old(Contents()) && StepsSpec(Members(Contents()), mutations) == Err(r.error)
    {
      hide KeysOf, ListedIn, StrictOrder, TableValid, TablesValid, Filed, TablesFind, SortedFinds, NamesOf, LiveRelationships, KeyRows, AllDiffer, StepsSpec;
      if mutations == [] {
        assert StepsSpec(Members(Contents()), mutations) == Ok(Members(Contents())) by { NoSteps(Members(Contents())); }
        r := CompactIfNeeded();
        return;
      }
      if |mutations| == 1 {
        OneStep(Members(Contents()), mutations);
        r := ApplyMutation(mutations[0]);
        if r.Ok? {
          r := CompactIfNeeded();
        }
        return;
      }
      if forall i :: 0 <= i < |mutations| ==> mutations[i].Touch? {
        r := ApplyTouches(mutations);
        if r.Ok? {
          r := CompactIfNeeded();
        }
        return;
      }
      r := ApplyOnCopy(mutations);
    }

    /** Applies a batch. It is all or nothing: it either has the effect of its mutations or fails for the
        first reason it has to, leaving the contents as they were. Running out of capacity does so too,
        unless only the compaction after a batch applied in place fails; and a store that looks symbols up
        in a sorted list may not survive it when it applies a single mutation. */
    method ApplyMutations(mutations: seq<Mutation>, preconditions: seq<Precondition>) returns (r: Outcome)
      requires Valid() && forall i :: 0 <= i < |preconditions| ==> preconditions[i].filter.limit > 0
      modifies this, Parts()
      ensures r.Ok? ==>
        && Valid() && Admissible(Members(old(Contents())), mutations, preconditions)
        && StepsSpec(Members(old(Contents())), mutations) == Ok(Members(Contents()))
      ensures r.Err? && !r.error.OutOfCapacity? ==>
        && Valid() && Contents() == old(Contents())
        && (Admissible(Members(Contents()), mutations, preconditions) && old(uniqueness.Ready?)
            ==> StepsSpec(Members(Contents()), mutations) == Err(r.error))
      ensures r.Err? && (old(HashBacked()) || |mutations| != 1) ==> Valid() && LeavesWhole(old(Contents()), mutations)
      ensures |mutations| > 1 && AllTouches(mutations) && !old(TouchesFit(mutations)) ==>
        r.Err? && Valid() && Contents() == old(Contents())
    {
      hide IndexedRelationshipStore.Valid, AllHold, StepsSpec, DistinctTargets, IndexedRelationshipStore.TouchesFit;
      r := CheckBatch(mutations, preconditions);
      if r.Ok? {
        r := ApplyDistinct(mutations);
      }
    }
  }

  /** A fresh store holding the given relationships, in that order. */
  method StoreOf(symbolHash: Hasher, rowHash: Row -> nat, relationships: seq<Relationship>) returns (r: Result<IndexedRelationshipStore, StoreError>)
    requires NoRepeatedRelationships(relationships)
    ensures r.Err? ==> r.error.OutOfCapacity?
    ensures r.Ok? ==> fresh(r.value) && r.value.uniqueness.Ready? && fresh(r.value.Parts())
    ensures r.Ok? ==> r.value.Valid() && r.value.Contents() == relationships && r.value.HashBacked()
    ensures r.Ok? ==> r.value.symbolHash == symbolHash && r.value.rowHash == rowHash
  {
    var store := new IndexedRelationshipStore(symbolHash, rowHash);
    hide KeysOf, ListedIn, StrictOrder, TableValid, TablesValid, Filed, TablesFind, SortedFinds, NamesOf, LiveRelationships, KeyRows, AllDiffer,
         NoRepeats, Symbols.And, Symbols.RoomFor, Identifiers, ToRelationship;
    for i := 0 to |relationships|
      invariant fresh(store) && fresh(store.interner) && fresh(store.live) && fresh(store.postings)
      invariant store.uniqueness.Ready? && fresh(store.uniqueness.index) && store.Valid() && store.HashBacked()
      invariant store.Contents() == relationships[..i]
    {
      var inserted := store.Insert(relationships[i]);
      if inserted.Err? {
        return Err(inserted.error);
      }
      assert relationships[..i + 1] == relationships[..i] + [relationships[i]];
    }
    assert relationships[..|relationships|] == relationships;
    r := Ok(store);
  }

  /** The first mutation that names a relationship again, if any. */
  method FindDuplicate(mutations: seq<Mutation>) returns (r: Option<Relationship>)
    ensures r.None? <==> DistinctTargets(mutations)
    ensures r.Some? ==> exists i, j :: 0 <= i < j < |mutations| && mutations[i].relationship == mutations[j].relationship == r.value
  {
    var seen := {};
    for i := 0 to |mutations|
      invariant seen == set k | 0 <= k < i :: mutations[k].relationship
      invariant DistinctTargets(mutations[..i])
    {
      if mutations[i].relationship in seen {
        return Some(mutations[i].relationship);
      }
      seen := seen + {mutations[i].relationship};
    }
    assert mutations[..|mutations|] == mutations;
    r := None;
  }
}
