/** The writer: schema and relationship commands, each of which publishes a new snapshot or changes nothing. */
module Publication {
  import opened Vocabulary
  import opened Interner
  import opened IdentityIndex
  import opened PostingIndex
  import opened StoredRows
  import opened RelationshipStore
  import opened StoreView
  import opened Schema
  import opened NamespaceConfigs
  import opened PublishedHistory
  import RelationshipText
  import PolicyText

  const POLICY_IMPORT_BATCH_SIZE := MAX_MUTATIONS_PER_BATCH

  datatype PublicationError =
    | Compile(compileError: CompileError)
    | Store(storeError: StoreError)
    | Consistency(consistencyError: ConsistencyError)
    | Unresolved(relationship: Relationship)
    | UnresolvedFilter(filter: RelationshipFilter)
    | SchemaRequired
    | InvalidIdentifier(value: string)
    | NamespaceMissing(namespace: string)
    | RelationMissing(namespace: string, relation: string)
    | Text(textError: RelationshipText.DomainError)

  /** Failures that no input could have avoided. */
  predicate Exhausted(error: PublicationError) {
    (error.Store? && error.storeError.OutOfCapacity?) || error == Consistency(RevisionOverflow)
  }

  // ---------------------------------------------------------------- what a snapshot promises

  /** The objects a view consists of. They are frozen once the view is published. */
  ghost function Footprint(view: RelationshipStoreView): set<object>
    reads view.checkpoint, if view.delta.Some? then {view.delta.value.inserted} else {}
  {
    {view, view.checkpoint} + view.checkpoint.Parts()
    + if view.delta.Some? then {view.delta.value.inserted} + view.delta.value.inserted.Parts() else {}
  }

  ghost predicate Within(view: RelationshipStoreView, frozen: set<object>)
    reads frozen
  {
    && view.checkpoint in frozen
    && (view.delta.Some? ==> view.delta.value.inserted in frozen)
    && Footprint(view) <= frozen
  }

  ghost predicate Anchored(view: RelationshipStoreView, frozen: set<object>)
    reads frozen
  {
    Within(view, frozen) && view.Valid()
  }

  /** The relationships of a view. */
  ghost function ContentsOf(view: RelationshipStoreView, frozen: set<object>): set<Relationship>
    requires Anchored(view, frozen)
    reads frozen
  {
    LiveSet(view.Rows())
  }

  ghost function RowsOf(view: RelationshipStoreView, frozen: set<object>): Rows
    requires Anchored(view, frozen)
    reads frozen
  {
    view.Rows()
  }

  ghost predicate AllResolveIn(configs: Configs, relationships: set<Relationship>) {
    forall x :: x in relationships ==> ResolvesIn(configs, x)
  }

  /** The schema is the compiled form of the configurations, and every relationship of the view resolves in it. */
  ghost predicate Sound(configs: Configs, schema: CompiledSchema, view: RelationshipStoreView)
    reads view, view.checkpoint, view.checkpoint.Parts(),
          if view.delta.Some? then {view.delta.value.inserted} + view.delta.value.inserted.Parts() else {}
  {
    Keyed(configs) && CompiledFrom(configs, schema) && view.Valid() && AllResolveIn(configs, LiveSet(view.Rows()))
  }

  ghost predicate Kept(snapshot: PublishedSnapshot, frozen: set<object>)
    reads frozen
  {
    Within(snapshot.relationships, frozen) && Sound(snapshot.configs, snapshot.schema, snapshot.relationships)
  }

  /** Everything published so far, one revision after another, is sound and stays within the frozen objects. */
  ghost predicate LogSound(log: seq<PublishedSnapshot>, frozen: set<object>)
    reads frozen
  {
    |log| <= MAX_REVISION && Numbered(log) && forall i :: 0 <= i < |log| ==> Kept(log[i], frozen)
  }

  /** The history is the end of the log, as long as retention allows. */
  ghost predicate HistoryMatches(log: seq<PublishedSnapshot>, history: seq<PublishedSnapshot>, retained: nat, last: Option<nat>) {
    && |history| <= |log| && |history| <= retained
    && history == log[|log| - |history|..]
    && last == if log == [] then None else Some(|log|)
  }

  /** The writer's own fields are those of the latest snapshot. */
  ghost predicate CurrentMatches(current: Option<PublishedSnapshot>, history: seq<PublishedSnapshot>, configs: Configs,
                                 schema: Option<CompiledSchema>, relationships: RelationshipStoreView) {
    if history == [] then
      current.None? && schema.None? && configs == map[]
    else
      && current == Some(history[|history| - 1])
      && configs == current.value.configs && schema == Some(current.value.schema)
      && relationships == current.value.relationships
  }

  lemma LogGrows(log: seq<PublishedSnapshot>, frozen: set<object>, snapshot: PublishedSnapshot)
    requires LogSound(log, frozen) && |log| < MAX_REVISION && snapshot.revision == |log| + 1
    requires Sound(snapshot.configs, snapshot.schema, snapshot.relationships)
    ensures LogSound(log + [snapshot], frozen + Footprint(snapshot.relationships))
  {
    hide Sound, Footprint;
    Freezes(snapshot, frozen);
  }

  lemma RevisionsAreCounted(log: seq<PublishedSnapshot>, history: seq<PublishedSnapshot>, retained: nat, last: Option<nat>)
    requires HistoryMatches(log, history, retained, last)
    ensures NextRevision(last) == if |log| < MAX_REVISION then Ok(|log| + 1) else Err(RevisionOverflow)
  {
  }

  /** The history without its oldest snapshots. */
  function Without(history: seq<PublishedSnapshot>, oldest: nat): seq<PublishedSnapshot>
    requires oldest <= |history|
  {
    history[oldest..]
  }

  lemma WithoutOneMore(history: seq<PublishedSnapshot>, oldest: nat)
    requires oldest < |history|
    ensures |Without(history, oldest)| == |history| - oldest && Without(history, 0) == history
    ensures Without(history, oldest)[1..] == Without(history, oldest + 1)
  {
  }

  lemma HistoryGrows(log: seq<PublishedSnapshot>, history: seq<PublishedSnapshot>, retained: nat, last: Option<nat>,
                     snapshot: PublishedSnapshot, next: seq<PublishedSnapshot>)
    requires HistoryMatches(log, history, retained, last) && retained > 0
    requires |next| == if |history| + 1 > retained then retained else |history| + 1
    requires next == (history + [snapshot])[|history| + 1 - |next|..]
    ensures HistoryMatches(log + [snapshot], next, retained, Some(|log| + 1))
    ensures next != [] && next[|next| - 1] == snapshot
  {
  }

  lemma Anchors(view: RelationshipStoreView)
    requires view.Valid()
    ensures Anchored(view, Footprint(view)) && ContentsOf(view, Footprint(view)) == LiveSet(view.Rows())
  {
    hide RelationshipStoreView.Valid;
  }

  lemma AnchorsAlong(view: RelationshipStoreView, frozen: set<object>)
    requires view.Valid()
    ensures Anchored(view, frozen + Footprint(view)) && ContentsOf(view, frozen + Footprint(view)) == LiveSet(view.Rows())
  {
    hide RelationshipStoreView.Valid;
  }

  lemma LogSoundInMore(log: seq<PublishedSnapshot>, frozen: set<object>, more: set<object>)
    requires LogSound(log, frozen)
    ensures LogSound(log, frozen + more)
  {
    hide Sound;
  }

  lemma Freezes(snapshot: PublishedSnapshot, frozen: set<object>)
    requires Sound(snapshot.configs, snapshot.schema, snapshot.relationships)
    ensures Kept(snapshot, frozen + Footprint(snapshot.relationships))
    ensures Anchored(snapshot.relationships, frozen + Footprint(snapshot.relationships)) && Keyed(snapshot.configs)
    ensures ContentsOf(snapshot.relationships, frozen + Footprint(snapshot.relationships)) == LiveSet(snapshot.relationships.Rows())
  {
    hide CompiledFrom, RelationshipStoreView.Valid;
  }

  /** Frozen objects are parts of stores: neither a writer nor a slot is among them. */
  ghost predicate Inert(frozen: set<object>) {
    forall part :: part in frozen ==> !(part is WriterState) && !(part is SharedEngineState)
  }

  lemma FootprintIsInert(view: RelationshipStoreView)
    ensures Inert(Footprint(view))
  {
  }

  lemma InertTogether(frozen: set<object>, view: RelationshipStoreView, writer: WriterState)
    requires Inert(frozen)
    ensures Inert(frozen + Footprint(view)) && writer !in frozen + Footprint(view)
  {
    FootprintIsInert(view);
  }

  lemma NotFrozen(frozen: set<object>, writer: WriterState, slot: SharedEngineState)
    requires Inert(frozen)
    ensures writer !in frozen && slot !in frozen
  {
  }

  /** A view without relationships. */
  method EmptyView(symbolHash: Hasher, rowHash: Row -> nat) returns (view: RelationshipStoreView)
    ensures view.Valid() && LiveSet(view.Rows()) == {}
  {
    hide KeysOf, ListedIn, StrictOrder, TableValid, TablesValid, Filed, TablesFind, SortedFinds, NamesOf, LiveRelationships, KeyRows, AllDiffer;
    var store := new IndexedRelationshipStore(symbolHash, rowHash);
    view := new RelationshipStoreView.FromCheckpoint(store);
  }

  ghost predicate MutationsResolve(configs: Configs, mutations: seq<Mutation>) {
    forall i :: 0 <= i < |mutations| ==> ResolvesIn(configs, mutations[i].relationship)
  }

  /** A filter mentions only what is configured. */
  ghost predicate FilterResolves(configs: Configs, filter: RelationshipFilter) {
    && filter.resourceType in configs
    && (filter.relation.Some? ==> DefinesRelation(configs, filter.resourceType, filter.relation.value))
    && (filter.subject.Some? && filter.subject.value.relation.Some? ==>
          DefinesRelation(configs, filter.subject.value.subjectType, filter.subject.value.relation.value))
  }

  ghost predicate FiltersResolve(configs: Configs, preconditions: seq<Precondition>) {
    forall i :: 0 <= i < |preconditions| ==> FilterResolves(configs, preconditions[i].filter)
  }

  predicate ValidateFilter(schema: CompiledSchema, filter: RelationshipFilter) {
    && schema.resolver.Namespace(filter.resourceType).Ok?
    && (filter.relation.Some? ==> schema.resolver.Relation(filter.resourceType, filter.relation.value).Ok?)
    && (filter.subject.Some? && filter.subject.value.relation.Some? ==>
          schema.resolver.Relation(filter.subject.value.subjectType, filter.subject.value.relation.value).Ok?)
  }

  lemma FilterValidationIsResolution(configs: Configs, schema: CompiledSchema, filter: RelationshipFilter)
    requires CompiledFrom(configs, schema)
    ensures ValidateFilter(schema, filter) <==> FilterResolves(configs, filter)
  {
    hide CompiledFrom, DefinesRelation;
    NamespacesConfigured(configs, schema, filter.resourceType);
    if filter.relation.Some? {
      ResolvesConfigured(configs, schema, filter.resourceType, filter.relation.value);
    }
    if filter.subject.Some? && filter.subject.value.relation.Some? {
      ResolvesConfigured(configs, schema, filter.subject.value.subjectType, filter.subject.value.relation.value);
    }
  }

  /** Checks a batch and its preconditions against the schema before anything is applied. */
  method ValidateBatch(ghost configs: Configs, schema: CompiledSchema, mutations: seq<Mutation>, preconditions: seq<Precondition>)
    returns (r: Result<(), PublicationError>)
    requires CompiledFrom(configs, schema)
    ensures r.Ok? <==> MutationsResolve(configs, mutations) && FiltersResolve(configs, preconditions)
    ensures r.Err? ==> !Exhausted(r.error)
  {
    hide CompiledFrom, ResolvesIn, FilterResolves;
    for i := 0 to |mutations|
      invariant forall k :: 0 <= k < i ==> ResolvesIn(configs, mutations[k].relationship)
    {
      ValidationIsResolution(configs, schema, mutations[i].relationship);
      if !ValidateRelationship(schema, mutations[i].relationship) {
        return Err(Unresolved(mutations[i].relationship));
      }
    }
    for i := 0 to |preconditions|
      invariant forall k :: 0 <= k < i ==> FilterResolves(configs, preconditions[k].filter)
    {
      FilterValidationIsResolution(configs, schema, preconditions[i].filter);
      if !ValidateFilter(schema, preconditions[i].filter) {
        return Err(UnresolvedFilter(preconditions[i].filter));
      }
    }
    r := Ok(());
  }

  /** A batch adds nothing but what it names. */
  lemma {:induction false} StepsAddOnlyNamed(contents: set<Relationship>, mutations: seq<Mutation>, configs: Configs)
    requires StepsSpec(contents, mutations).Ok? && AllResolveIn(configs, contents) && MutationsResolve(configs, mutations)
    ensures AllResolveIn(configs, StepsSpec(contents, mutations).value)
    decreases |mutations|
  {
    hide ResolvesIn;
    if mutations != [] {
      StepsAddOnlyNamed(StepSpec(contents, mutations[0]).value, mutations[1..], configs);
    }
  }

  // ---------------------------------------------------------------- importing a policy

  function Creates(relationships: seq<Relationship>): seq<Mutation> {
    seq(|relationships|, i requires 0 <= i < |relationships| => Create(relationships[i]))
  }

  /** Creating relationships works exactly if none of them is there already, be it from earlier in the batch. */
  lemma {:induction false} CreatesApply(contents: set<Relationship>, relationships: seq<Relationship>)
    ensures StepsSpec(contents, Creates(relationships)).Ok? <==> NoRepeatedRelationships(relationships) && Members(relationships) !! contents
    ensures StepsSpec(contents, Creates(relationships)).Ok? ==>
      StepsSpec(contents, Creates(relationships)).value == contents + Members(relationships)
    decreases |relationships|
  {
    if relationships != [] {
      var first, rest := relationships[0], relationships[1..];
      assert Creates(relationships)[1..] == Creates(rest);
      assert Members(relationships) == {first} + Members(rest);
      CreatesApply(contents + {first}, rest);
      OnceWithHead(first, rest);
      assert relationships == [first] + rest;
    }
  }

  lemma OnceWithHead(first: Relationship, rest: seq<Relationship>)
    ensures NoRepeatedRelationships([first] + rest) <==> first !in rest && NoRepeatedRelationships(rest)
  {
    var whole := [first] + rest;
    if NoRepeatedRelationships(whole) {
      forall i | 0 <= i < |rest| ensures rest[i] != first {
        assert whole[0] == first && whole[i + 1] == rest[i];
      }
      forall i, j | 0 <= i < j < |rest| ensures rest[i] != rest[j] {
        assert whole[i + 1] == rest[i] && whole[j + 1] == rest[j];
      }
    }
  }

  lemma NoneRepeated()
    ensures NoRepeatedRelationships([])
  {
  }

  lemma OnceTogether(left: seq<Relationship>, right: seq<Relationship>)
    requires NoRepeatedRelationships(left)
    ensures NoRepeatedRelationships(left + right) <==> NoRepeatedRelationships(right) && Members(right) !! Members(left)
  {
    var whole := left + right;
    if NoRepeatedRelationships(whole) {
      forall i, j | 0 <= i < j < |right| ensures right[i] != right[j] {
        assert whole[|left| + i] == right[i] && whole[|left| + j] == right[j];
      }
      forall i, j | 0 <= i < |left| && 0 <= j < |right| ensures left[i] != right[j] {
        assert whole[i] == left[i] && whole[|left| + j] == right[j];
      }
    } else if NoRepeatedRelationships(right) {
      var i, j :| 0 <= i < j < |whole| && whole[i] == whole[j];
      assert i < |left| <= j;
      assert left[i] in Members(left) && right[j - |left|] in Members(right);
    }
  }

  /** A batch of creations goes through exactly if it resolves and repeats nothing. */
  lemma BatchGoesThrough(rows: Rows, contents: set<Relationship>, done: seq<Relationship>, batch: seq<Relationship>)
    requires contents == Members(done) && NoRepeatedRelationships(done) && |batch| <= MAX_MUTATIONS_PER_BATCH
    ensures Admitted(rows, Creates(batch), []) && StepsSpec(contents, Creates(batch)).Ok? <==> NoRepeatedRelationships(done + batch)
    ensures StepsSpec(contents, Creates(batch)).Ok? ==> StepsSpec(contents, Creates(batch)).value == Members(done + batch)
  {
    hide StepsSpec;
    CreatesApply(contents, batch);
    OnceTogether(done, batch);
    assert Members(done + batch) == Members(done) + Members(batch);
    assert NoRepeatedRelationships(batch) ==> DistinctTargets(Creates(batch));
  }

  /** The policy compiles and its relationships parse, resolve in its schema and differ from one another. */
  ghost predicate PolicyFits(source: seq<ParsedNamespace>, files: seq<PolicyText.PolicyTextFile>) {
    && SourceLegal(source) && Publishable(Merged(map[], ConfigsFrom(source)))
    && exists relationships :: Imports(source, files, relationships)
  }

  ghost predicate Imports(source: seq<ParsedNamespace>, files: seq<PolicyText.PolicyTextFile>, relationships: seq<Relationship>) {
    && PolicyText.AllParse(PolicyText.FileStatements(files), relationships)
    && NoRepeatedRelationships(relationships)
    && AllResolveIn(Merged(map[], ConfigsFrom(source)), Members(relationships))
  }

  lemma ImportsAreUnique(source: seq<ParsedNamespace>, files: seq<PolicyText.PolicyTextFile>, relationships: seq<Relationship>)
    requires PolicyText.AllParse(PolicyText.FileStatements(files), relationships)
    ensures forall other :: Imports(source, files, other) ==> other == relationships
  {
    hide AllResolveIn, NoRepeatedRelationships;
  }

  lemma NothingResolves(configs: Configs)
    ensures AllResolveIn(configs, {})
  {
  }

  lemma CreatesResolve(configs: Configs, batch: seq<Relationship>)
    ensures MutationsResolve(configs, Creates(batch)) <==> AllResolveIn(configs, Members(batch))
  {
    hide ResolvesIn;
    if AllResolveIn(configs, Members(batch)) {
      forall i | 0 <= i < |batch| ensures ResolvesIn(configs, Creates(batch)[i].relationship) {
        assert batch[i] in Members(batch);
      }
    } else {
      var x :| x in Members(batch) && !ResolvesIn(configs, x);
      var i :| 0 <= i < |batch| && batch[i] == x;
      assert Creates(batch)[i].relationship == x;
    }
  }

  /** Whatever holds of all relationships holds of each batch. */
  lemma PartsFit(relationships: seq<Relationship>, from: nat, to: nat, configs: Configs)
    requires from <= to <= |relationships|
    ensures relationships[..from] + relationships[from..to] == relationships[..to]
    ensures NoRepeatedRelationships(relationships) ==> NoRepeatedRelationships(relationships[..to])
    ensures AllResolveIn(configs, Members(relationships)) ==> AllResolveIn(configs, Members(relationships[from..to]))
    ensures AllResolveIn(configs, Members(relationships[..from])) && AllResolveIn(configs, Members(relationships[from..to])) ==>
      AllResolveIn(configs, Members(relationships[..to]))
  {
    hide ResolvesIn;
    assert relationships[..from] + relationships[from..to] == relationships[..to];
    assert Members(relationships[..to]) == Members(relationships[..from]) + Members(relationships[from..to]);
  }

  predicate Configures(configs: Configs, namespace: string, relation: string) {
    namespace in configs && relation in configs[namespace].relations
  }

  function WithoutRelation(configs: Configs, namespace: string, relation: string): Configs
    requires namespace in configs
  {
    configs[namespace := configs[namespace].(relations := configs[namespace].relations - {relation})]
  }

  /** The slot readers load the engine state from. */
  class SharedEngineState {
    var state: Option<EngineState>

    constructor ()
      ensures state.None?
    {
      state := None;
    }
  }

  /** The first relationship that does not resolve in the schema, if any. */
  method FindUnresolved(ghost next: Configs, nextSchema: CompiledSchema, rows: seq<Relationship>) returns (r: Option<Relationship>)
    requires CompiledFrom(next, nextSchema)
    ensures r.None? ==> forall k :: 0 <= k < |rows| ==> ResolvesIn(next, rows[k])
    ensures r.Some? ==> r.value in rows && !ResolvesIn(next, r.value)
  {
    hide CompiledFrom, ResolvesIn, ValidateRelationship;
    for i := 0 to |rows|
      invariant forall k :: 0 <= k < i ==> ResolvesIn(next, rows[k])
    {
      ValidationIsResolution(next, nextSchema, rows[i]);
      if !ValidateRelationship(nextSchema, rows[i]) {
        return Some(rows[i]);
      }
    }
    r := None;
  }

  class WriterState {
    const symbolHash: Hasher
    const rowHash: Row -> nat
    const schemaHash: CompiledSchema -> nat
    const datastoreId: nat
    const retainedSnapshots: nat
    const publishedState: SharedEngineState
    var configs: Configs
    var schema: Option<CompiledSchema>
    var relationships: RelationshipStoreView
    var currentSnapshot: Option<PublishedSnapshot>
    var snapshotHistory: seq<PublishedSnapshot>
    var lastRevision: Option<nat>

    /** Every snapshot this engine ever published, and all the objects they consist of. */
    ghost var log: seq<PublishedSnapshot>
    ghost var frozen: set<object>

    ghost predicate Valid()
      reads this, publishedState, frozen
    {
      Consistent() && publishedState.state == Published()
    }

    /** The writer's own state, whatever readers see of it. */
    ghost predicate Consistent()
      reads this, frozen
    {
      && retainedSnapshots > 0
      && Inert(frozen)
      && LogSound(log, frozen)
      && HistoryMatches(log, snapshotHistory, retainedSnapshots, lastRevision)
      && CurrentMatches(currentSnapshot, snapshotHistory, configs, schema, relationships)
      && Keyed(configs) && Anchored(relationships, frozen)
      && (snapshotHistory == [] ==> ContentsOf(relationships, frozen) == {})
    }

    /** What readers are to see. */
    function Published(): Option<EngineState>
      reads this
    {
      if currentSnapshot.Some? && lastRevision.Some?
      then Some(EngineState(currentSnapshot.value, snapshotHistory, datastoreId, lastRevision.value))
      else None
    }

    /** The relationships of the latest snapshot. */
    ghost function Contents(): set<Relationship>
      requires Consistent()
      reads this, frozen
    {
      ContentsOf(relationships, frozen)
    }

    /** The position in the log of the oldest snapshot still retained. */
    ghost function Oldest(): int
      reads this
    {
      |log| - |snapshotHistory|
    }

    constructor (symbolHash: Hasher, rowHash: Row -> nat, schemaHash: CompiledSchema -> nat, datastoreId: nat, retainedSnapshots: nat,
                 publishedState: SharedEngineState)
      requires retainedSnapshots > 0 && publishedState.state.None?
      ensures Valid() && log == []
      ensures this.publishedState == publishedState && this.datastoreId == datastoreId && this.retainedSnapshots == retainedSnapshots
    {
      hide Kept, Anchored, Footprint, ContentsOf, RelationshipStoreView.Valid;
      var view := EmptyView(symbolHash, rowHash);
      ghost var held := Footprint(view);
      Anchors(view);
      FootprintIsInert(view);
      this.symbolHash, this.rowHash, this.schemaHash := symbolHash, rowHash, schemaHash;
      this.datastoreId, this.retainedSnapshots, this.publishedState := datastoreId, retainedSnapshots, publishedState;
      configs, schema, relationships, currentSnapshot := map[], None, view, None;
      snapshotHistory, lastRevision, log := [], None, [];
      frozen := held;
      new;
      NotFrozen(held, this, publishedState);
      assert Anchored(view, held) && ContentsOf(view, held) == {};
    }

    // -------------------------------------------------------------- publishing

    /** Drops the oldest snapshots beyond the retention limit. */
    method TrimHistory()
      requires snapshotHistory != []
      modifies this`snapshotHistory
      ensures |snapshotHistory| == if old(|snapshotHistory|) > retainedSnapshots then retainedSnapshots else old(|snapshotHistory|)
      ensures snapshotHistory == Without(old(snapshotHistory), old(|snapshotHistory|) - |snapshotHistory|)
    {
      hide Without;
      ghost var whole, dropped: nat := snapshotHistory, 0;
      WithoutOneMore(whole, 0);
      while |snapshotHistory| > retainedSnapshots
        invariant |snapshotHistory| == |whole| - dropped
        invariant dropped == 0 || |snapshotHistory| >= retainedSnapshots
        invariant snapshotHistory == Without(whole, dropped)
      {
        WithoutOneMore(whole, dropped);
        snapshotHistory := snapshotHistory[1..];
        dropped := dropped + 1;
      }
    }

    method PublishCurrentEngineState()
      modifies publishedState
      ensures publishedState.state == Published()
    {
      publishedState.state := Published();
    }

    /** Makes a snapshot the current one and the last of the history. */
    method Append(snapshot: PublishedSnapshot)
      requires Consistent() && Sound(snapshot.configs, snapshot.schema, snapshot.relationships)
      requires snapshot.revision == |log| + 1 <= MAX_REVISION
      modifies this
      ensures Consistent() && Oldest() >= old(Oldest())
      ensures log == old(log) + [snapshot] && currentSnapshot == Some(snapshot) && lastRevision == Some(snapshot.revision)
      ensures Contents() == old(LiveSet(snapshot.relationships.Rows()))
    {
      hide Sound, Keyed, Anchored, Kept, Footprint, ContentsOf, HistoryMatches, LogSound, RelationshipStoreView.Valid, RelationshipStoreView.Rows, LiveSet, Inert;
      ghost var held := frozen + Footprint(snapshot.relationships);
      LogGrows(log, frozen, snapshot);
      Freezes(snapshot, frozen);
      InertTogether(frozen, snapshot.relationships, this);
      configs, schema, relationships := snapshot.configs, Some(snapshot.schema), snapshot.relationships;
      currentSnapshot, snapshotHistory, lastRevision := Some(snapshot), snapshotHistory + [snapshot], Some(snapshot.revision);
      log, frozen := log + [snapshot], held;
      TrimHistory();
      HistoryGrows(old(log), old(snapshotHistory), retainedSnapshots, old(lastRevision), snapshot, snapshotHistory);
    }

    /** Publishes one more snapshot, unless the revisions have run out, in which case nothing changes. */
    method PublishSnapshot(nextConfigs: Configs, nextSchema: CompiledSchema, nextRelationships: RelationshipStoreView)
      returns (r: Result<ConsistencyToken, PublicationError>)
      requires Valid() && Sound(nextConfigs, nextSchema, nextRelationships)
      modifies this, publishedState
      ensures r.Ok? <==> |old(log)| < MAX_REVISION
      ensures r.Err? ==> r.error == Consistency(RevisionOverflow) && unchanged(this) && unchanged(publishedState)
      ensures r.Ok? ==> Valid() && Oldest() >= old(Oldest()) && currentSnapshot.Some?
      ensures r.Ok? ==> log == old(log) + [currentSnapshot.value] && r.value == TokenOf(currentSnapshot.value, datastoreId)
      ensures r.Ok? ==> currentSnapshot.value == PublishedSnapshot(|log|, schemaHash(nextSchema), nextConfigs, nextSchema, nextRelationships)
      ensures r.Ok? ==> Contents() == old(LiveSet(nextRelationships.Rows()))
    {
      hide Sound, Keyed, Anchored, Kept, Footprint, HistoryMatches, LogSound, CurrentMatches, Contents, RelationshipStoreView.Valid;
      RevisionsAreCounted(log, snapshotHistory, retainedSnapshots, lastRevision);
      var revision := NextRevision(lastRevision);
      if revision.Err? {
        return Err(Consistency(revision.error));
      }
      var snapshot := PublishedSnapshot(revision.value, schemaHash(nextSchema), nextConfigs, nextSchema, nextRelationships);
      Append(snapshot);
      NotFrozen(frozen, this, publishedState);
      PublishCurrentEngineState();
      r := Ok(TokenOf(snapshot, datastoreId));
    }

    // -------------------------------------------------------------- schema commands

    /** The configurations compile, and every stored relationship resolves in them. */
    ghost predicate Admits(next: Configs)
      requires Consistent()
      reads this, frozen
    {
      Publishable(next) && AllResolveIn(next, Contents())
    }

    /** Rebuilds the relationships into a new store, checking each against the new schema. Each is new to the
        store, so touching it inserts it. */
    method RevalidateRelationshipStore(ghost next: Configs, nextSchema: CompiledSchema) returns (r: Result<RelationshipStoreView, PublicationError>)
      requires Valid() && CompiledFrom(next, nextSchema)
      ensures r.Ok? ==> r.value.Valid() && LiveSet(r.value.Rows()) == old(Contents()) && AllResolveIn(next, old(Contents()))
      ensures r.Err? ==> Exhausted(r.error) || !AllResolveIn(next, Contents())
    {
      hide KeysOf, ListedIn, StrictOrder, TableValid, TablesValid, Filed, TablesFind, SortedFinds, NamesOf, LiveRelationships, KeyRows, AllDiffer;
      hide CompiledFrom, LogSound, HistoryMatches, CurrentMatches, ResolvesIn, Overlays;
      var rows := relationships.LiveRelationshipList();
      var unresolved := FindUnresolved(next, nextSchema, rows);
      if unresolved.Some? {
        assert unresolved.value in Members(rows);
        return Err(Unresolved(unresolved.value));
      }
      var store := StoreOf(symbolHash, rowHash, rows);
      if store.Err? {
        return Err(Store(store.error));
      }
      var view := new RelationshipStoreView.FromCheckpoint(store.value);
      r := Ok(view);
    }

    method RelationshipStoreForSchema(ghost next: Configs, nextSchema: CompiledSchema) returns (r: Result<RelationshipStoreView, PublicationError>)
      requires Valid() && CompiledFrom(next, nextSchema)
      ensures r.Ok? ==> r.value.Valid() && LiveSet(r.value.Rows()) == old(Contents()) && AllResolveIn(next, old(Contents()))
      ensures r.Err? ==> Exhausted(r.error) || !AllResolveIn(next, Contents())
    {
      hide CompiledFrom, LogSound, HistoryMatches, ResolvesIn, RelationshipStoreView.Valid, LiveSet, Anchored;
      if schema.Some? {
        r := RevalidateRelationshipStore(next, nextSchema);
      } else {
        var view := EmptyView(symbolHash, rowHash);
        r := Ok(view);
      }
    }

    /** What every schema command ends with: compile, carry the relationships over, publish. It either does all
        of that or changes nothing, and the relationships stay as they are either way. */
    method PublishConfigs(next: Configs) returns (r: Result<ConsistencyToken, PublicationError>)
      requires Valid() && Keyed(next)
      modifies this, publishedState
      ensures r.Err? ==> unchanged(this) && unchanged(publishedState) && (Exhausted(r.error) || !Admits(next))
      ensures r.Ok? ==> old(Admits(next)) && Valid() && Oldest() >= old(Oldest()) && currentSnapshot.Some?
      ensures r.Ok? ==> log == old(log) + [currentSnapshot.value] && r.value == TokenOf(currentSnapshot.value, datastoreId)
      ensures r.Ok? ==> configs == next && Contents() == old(Contents())
    {
      hide CompiledFrom, LogSound, HistoryMatches, AllResolveIn, RelationshipStoreView.Valid, LiveSet, ContentsOf, Inert, Anchored, Publishable;
      var compiled := CompileConfigs(next);
      if compiled.Err? {
        return Err(Compile(compiled.error));
      }
      var store := RelationshipStoreForSchema(next, compiled.value);
      if store.Err? {
        return Err(store.error);
      }
      r := PublishSnapshot(next, compiled.value, store.value);
    }

    method ApplyNamespaceConfigs(added: seq<NamespaceConfig>) returns (r: Result<ConsistencyToken, PublicationError>)
      requires Valid()
      modifies this, publishedState
      ensures r.Err? ==> unchanged(this) && unchanged(publishedState) && (Exhausted(r.error) || !Admits(Merged(configs, added)))
      ensures r.Ok? ==> old(Admits(Merged(configs, added))) && Valid() && Oldest() >= old(Oldest()) && currentSnapshot.Some?
      ensures r.Ok? ==> log == old(log) + [currentSnapshot.value] && r.value == TokenOf(currentSnapshot.value, datastoreId)
      ensures r.Ok? ==> configs == Merged(old(configs), added) && Contents() == old(Contents())
    {
      hide Admits, Merged, LogSound, HistoryMatches, CurrentMatches, Contents, Anchored, Inert;
      var next := Merge(configs, added);
      MergingKeepsKeys(configs, added);
      r := PublishConfigs(next);
    }

    /** Adds parsed schema text to the configurations. The text must compile by itself as well. */
    method AddDsl(source: seq<ParsedNamespace>) returns (r: Result<ConsistencyToken, PublicationError>)
      requires Valid()
      modifies this, publishedState
      ensures r.Err? ==> unchanged(this) && unchanged(publishedState)
      ensures r.Err? ==> Exhausted(r.error) || !SourceLegal(source) || !Admits(Merged(configs, ConfigsFrom(source)))
      ensures r.Ok? ==> SourceLegal(source) && old(Admits(Merged(configs, ConfigsFrom(source))))
      ensures r.Ok? ==> Valid() && Oldest() >= old(Oldest()) && currentSnapshot.Some?
      ensures r.Ok? ==> log == old(log) + [currentSnapshot.value] && r.value == TokenOf(currentSnapshot.value, datastoreId)
      ensures r.Ok? ==> configs == Merged(old(configs), ConfigsFrom(source)) && Contents() == old(Contents())
    {
      hide Admits, Merged, LogSound, HistoryMatches, CurrentMatches, Contents, Anchored, Inert, SourceLegal, ConfigsFrom;
      var compiled := CompileSource(source);
      if compiled.Err? {
        return Err(Compile(compiled.error));
      }
      r := ApplyNamespaceConfigs(ConfigsFrom(source));
    }

    /** Replaces the configurations by those of the text. */
    method ReplaceDsl(source: seq<ParsedNamespace>) returns (r: Result<ConsistencyToken, PublicationError>)
      requires Valid()
      modifies this, publishedState
      ensures r.Err? ==> unchanged(this) && unchanged(publishedState)
      ensures r.Err? ==> Exhausted(r.error) || !SourceLegal(source) || !Admits(Merged(map[], ConfigsFrom(source)))
      ensures r.Ok? ==> SourceLegal(source) && old(Admits(Merged(map[], ConfigsFrom(source))))
      ensures r.Ok? ==> Valid() && Oldest() >= old(Oldest()) && currentSnapshot.Some?
      ensures r.Ok? ==> log == old(log) + [currentSnapshot.value] && r.value == TokenOf(currentSnapshot.value, datastoreId)
      ensures r.Ok? ==> configs == Merged(map[], ConfigsFrom(source)) && Contents() == old(Contents())
    {
      hide Admits, Merged, LogSound, HistoryMatches, CurrentMatches, Contents, Anchored, Inert, SourceLegal, ConfigsFrom;
      var compiled := CompileSource(source);
      if compiled.Err? {
        return Err(Compile(compiled.error));
      }
      MergingKeepsKeys(map[], ConfigsFrom(source));
      r := PublishConfigs(Merged(map[], ConfigsFrom(source)));
    }

    method DeleteNamespace(namespace: string) returns (r: Result<ConsistencyToken, PublicationError>)
      requires Valid()
      modifies this, publishedState
      ensures r.Err? ==> unchanged(this) && unchanged(publishedState)
      ensures r.Err? ==> Exhausted(r.error) || !Domain.ValidTypeName(namespace) || namespace !in configs || !Admits(configs - {namespace})
      ensures r.Ok? ==> namespace in old(configs) && old(Admits(configs - {namespace}))
      ensures r.Ok? ==> Valid() && Oldest() >= old(Oldest()) && currentSnapshot.Some?
      ensures r.Ok? ==> log == old(log) + [currentSnapshot.value] && r.value == TokenOf(currentSnapshot.value, datastoreId)
      ensures r.Ok? ==> configs == old(configs) - {namespace} && Contents() == old(Contents())
    {
      hide Admits, LogSound, HistoryMatches, CurrentMatches, Contents, Anchored, Inert;
      if !Domain.ValidTypeName(namespace) {
        return Err(InvalidIdentifier(namespace));
      }
      if namespace !in configs {
        return Err(NamespaceMissing(namespace));
      }
      r := PublishConfigs(configs - {namespace});
    }

    method DeleteRelation(namespace: string, relation: string) returns (r: Result<ConsistencyToken, PublicationError>)
      requires Valid()
      modifies this, publishedState
      ensures r.Err? ==> unchanged(this) && unchanged(publishedState)
      ensures r.Err? && Domain.ValidTypeName(namespace) && Domain.ValidTypeName(relation) && Configures(configs, namespace, relation) ==>
        Exhausted(r.error) || !Admits(WithoutRelation(configs, namespace, relation))
      ensures r.Ok? ==> Configures(old(configs), namespace, relation) && old(Admits(WithoutRelation(configs, namespace, relation)))
      ensures r.Ok? ==> Valid() && Oldest() >= old(Oldest()) && currentSnapshot.Some?
      ensures r.Ok? ==> log == old(log) + [currentSnapshot.value] && r.value == TokenOf(currentSnapshot.value, datastoreId)
      ensures r.Ok? ==> configs == WithoutRelation(old(configs), namespace, relation) && Contents() == old(Contents())
    {
      hide Admits, LogSound, HistoryMatches, CurrentMatches, Contents, Anchored, Inert;
      if !Domain.ValidTypeName(namespace) {
        return Err(InvalidIdentifier(namespace));
      }
      if !Domain.ValidTypeName(relation) {
        return Err(InvalidIdentifier(relation));
      }
      if namespace !in configs {
        return Err(NamespaceMissing(namespace));
      }
      if relation !in configs[namespace].relations {
        return Err(RelationMissing(namespace, relation));
      }
      r := PublishConfigs(WithoutRelation(configs, namespace, relation));
    }

    // -------------------------------------------------------------- relationship commands

    /** The batch resolves in the schema, is admitted by the view, and every step of it applies. */
    ghost predicate Applies(mutations: seq<Mutation>, preconditions: seq<Precondition>)
      requires Consistent()
      reads this, frozen
    {
      && schema.Some? && MutationsResolve(configs, mutations) && FiltersResolve(configs, preconditions)
      && Admitted(RowsOf(relationships, frozen), mutations, preconditions) && StepsSpec(Contents(), mutations).Ok?
    }

    lemma CurrentIsSound()
      requires Consistent() && currentSnapshot.Some?
      ensures schema.Some? && CompiledFrom(configs, schema.value) && AllResolveIn(configs, Contents())
    {
      hide CompiledFrom, RelationshipStoreView.Valid, LiveSet, AllResolveIn;
      assert Kept(log[|log| - 1], frozen);
    }

    /** Applies the mutations to the current view, leaving that view as it is. */
    method ApplyToView(mutations: seq<Mutation>, preconditions: seq<Precondition>) returns (r: Result<RelationshipStoreView, PublicationError>)
      requires Consistent() && AllResolveIn(configs, Contents()) && MutationsResolve(configs, mutations)
      ensures r.Ok? ==> r.value.Valid() && AllResolveIn(configs, LiveSet(r.value.Rows()))
      ensures r.Ok? ==> Admitted(RowsOf(relationships, frozen), mutations, preconditions)
      ensures r.Ok? ==> StepsSpec(Contents(), mutations) == Ok(LiveSet(r.value.Rows()))
      ensures r.Err? && Admitted(RowsOf(relationships, frozen), mutations, preconditions) ==>
        Exhausted(r.error) || StepsSpec(Contents(), mutations).Err?
    {
      hide LogSound, HistoryMatches, CurrentMatches, AllResolveIn, MutationsResolve, RelationshipStoreView.Valid, LiveSet, Admitted, StepsSpec, Inert;
      var applied := relationships.ApplyMutations(mutations, preconditions);
      if applied.Err? {
        return Err(Store(applied.error));
      }
      StepsAddOnlyNamed(Contents(), mutations, configs);
      r := Ok(applied.value);
    }

    method ApplyRelationshipMutations(mutations: seq<Mutation>, preconditions: seq<Precondition>)
      returns (r: Result<ConsistencyToken, PublicationError>)
      requires Valid()
      modifies this, publishedState
      ensures r.Err? ==> unchanged(this) && unchanged(publishedState) && (Exhausted(r.error) || !Applies(mutations, preconditions))
      ensures r.Ok? ==> old(Applies(mutations, preconditions)) && Valid() && Oldest() >= old(Oldest()) && currentSnapshot.Some?
      ensures r.Ok? ==> log == old(log) + [currentSnapshot.value] && r.value == TokenOf(currentSnapshot.value, datastoreId)
      ensures r.Ok? ==> configs == old(configs) && StepsSpec(old(Contents()), mutations) == Ok(Contents())
    {
      hide CompiledFrom, LogSound, HistoryMatches, AllResolveIn, MutationsResolve, FiltersResolve, RelationshipStoreView.Valid, LiveSet, Admitted, StepsSpec, Inert, Contents, RowsOf, Anchored;
      if schema.None? {
        return Err(SchemaRequired);
      }
      CurrentIsSound();
      var checked := ValidateBatch(configs, schema.value, mutations, preconditions);
      if checked.Err? {
        return Err(checked.error);
      }
      var next := ApplyToView(mutations, preconditions);
      if next.Err? {
        return Err(next.error);
      }
      r := PublishSnapshot(configs, schema.value, next.value);
    }

    // -------------------------------------------------------------- policies

    /** An empty writer that goes on counting where the service has got to, with readers of its own. */
    constructor ForReplacementOf(service: WriterState)
      requires service.Valid()
      ensures Valid() && fresh(publishedState) && log == service.log && snapshotHistory == [] && Contents() == {}
      ensures datastoreId == service.datastoreId && retainedSnapshots == service.retainedSnapshots
    {
      hide Kept, Anchored, Footprint, ContentsOf, RelationshipStoreView.Valid, Inert, LogSound;
      var slot := new SharedEngineState();
      var view := EmptyView(service.symbolHash, service.rowHash);
      ghost var held := service.frozen + Footprint(view);
      AnchorsAlong(view, service.frozen);
      LogSoundInMore(service.log, service.frozen, Footprint(view));
      InertTogether(service.frozen, view, service);
      symbolHash, rowHash, schemaHash := service.symbolHash, service.rowHash, service.schemaHash;
      datastoreId, retainedSnapshots := service.datastoreId, service.retainedSnapshots;
      publishedState := slot;
      configs, schema, relationships, currentSnapshot := map[], None, view, None;
      snapshotHistory, lastRevision, log := [], service.lastRevision, service.log;
      frozen := held;
    }

    method CreateBatch(ghost done: seq<Relationship>, batch: seq<Relationship>) returns (r: Result<ConsistencyToken, PublicationError>)
      requires Valid() && schema.Some? && |batch| <= POLICY_IMPORT_BATCH_SIZE
      requires Contents() == Members(done) && NoRepeatedRelationships(done)
      modifies this, publishedState
      ensures r.Err? && NoRepeatedRelationships(done + batch) && AllResolveIn(old(configs), Members(batch)) ==> Exhausted(r.error)
      ensures r.Ok? ==> NoRepeatedRelationships(done + batch) && AllResolveIn(configs, Members(batch))
      ensures r.Ok? ==> Valid() && Oldest() >= old(Oldest()) && currentSnapshot.Some? && schema.Some?
      ensures r.Ok? ==> log == old(log) + [currentSnapshot.value] && r.value == TokenOf(currentSnapshot.value, datastoreId)
      ensures r.Ok? ==> configs == old(configs) && Contents() == Members(done + batch)
    {
      hide LogSound, HistoryMatches, ResolvesIn, StepsSpec, Inert, Contents, RowsOf, Anchored, Admitted, NoRepeatedRelationships;
      BatchGoesThrough(RowsOf(relationships, frozen), Contents(), done, batch);
      CreatesResolve(configs, batch);
      r := ApplyRelationshipMutations(Creates(batch), []);
    }

    /** Creates the relationships in batches. */
    method CreateAll(relationships: seq<Relationship>, first: ConsistencyToken) returns (r: Result<ConsistencyToken, PublicationError>)
      requires Valid() && schema.Some? && currentSnapshot.Some? && first == TokenOf(currentSnapshot.value, datastoreId) && Contents() == {}
      modifies this, publishedState
      ensures r.Err? && NoRepeatedRelationships(relationships) && AllResolveIn(old(configs), Members(relationships)) ==> Exhausted(r.error)
      ensures r.Ok? ==> NoRepeatedRelationships(relationships) && AllResolveIn(configs, Members(relationships))
      ensures r.Ok? ==> Valid() && Oldest() >= old(Oldest()) && currentSnapshot.Some?
      ensures r.Ok? ==> old(log) <= log && r.value == TokenOf(currentSnapshot.value, datastoreId)
      ensures r.Ok? ==> configs == old(configs) && Contents() == Members(relationships)
    {
      hide Consistent, ResolvesIn, Contents, NoRepeatedRelationships;
      NoneRepeated();
      var token := first;
      var pending: seq<Relationship> := [];
      ghost var flushed: nat := 0;
      for i := 0 to |relationships|
        invariant Valid() && schema.Some? && currentSnapshot.Some? && token == TokenOf(currentSnapshot.value, datastoreId)
        invariant old(log) <= log && configs == old(configs) && Oldest() >= old(Oldest())
        invariant flushed <= i && |pending| < POLICY_IMPORT_BATCH_SIZE && pending == relationships[flushed..i]
        invariant Contents() == Members(relationships[..flushed]) && NoRepeatedRelationships(relationships[..flushed])
        invariant AllResolveIn(configs, Members(relationships[..flushed]))
      {
        pending := pending + [relationships[i]];
        assert pending == relationships[flushed..i + 1];
        if |pending| == POLICY_IMPORT_BATCH_SIZE {
          PartsFit(relationships, flushed, i + 1, configs);
          r := CreateBatch(relationships[..flushed], pending);
          if r.Err? {
            return;
          }
          token, pending, flushed := r.value, [], i + 1;
        }
      }
      if pending != [] {
        PartsFit(relationships, flushed, |relationships|, configs);
        r := CreateBatch(relationships[..flushed], pending);
        if r.Err? {
          return;
        }
        token := r.value;
      }
      assert relationships[..|relationships|] == relationships;
      r := Ok(token);
    }

    method CopyFrom(candidate: WriterState)
      requires candidate.Consistent() && candidate != this
      requires candidate.retainedSnapshots == retainedSnapshots && candidate.datastoreId == datastoreId
      modifies this
      ensures Consistent() && log == candidate.log && snapshotHistory == candidate.snapshotHistory
      ensures currentSnapshot == candidate.currentSnapshot && lastRevision == candidate.lastRevision
      ensures configs == candidate.configs && Contents() == old(candidate.Contents())
    {
      hide LogSound, HistoryMatches, CurrentMatches, Anchored, ContentsOf, Inert, Keyed;
      NotFrozen(candidate.frozen, this, publishedState);
      configs, schema, relationships := candidate.configs, candidate.schema, candidate.relationships;
      currentSnapshot, snapshotHistory, lastRevision := candidate.currentSnapshot, candidate.snapshotHistory, candidate.lastRevision;
      log, frozen := candidate.log, candidate.frozen;
    }

    /** Takes over a candidate's state and shows it to this writer's readers. */
    method TakeOver(candidate: WriterState)
      requires candidate.Valid() && candidate != this && candidate.retainedSnapshots == retainedSnapshots && candidate.datastoreId == datastoreId
      modifies this, publishedState
      ensures Valid() && log == candidate.log && snapshotHistory == candidate.snapshotHistory && currentSnapshot == candidate.currentSnapshot
      ensures configs == candidate.configs && Contents() == old(candidate.Contents())
    {
      hide LogSound, HistoryMatches, CurrentMatches, Anchored, ContentsOf, Keyed;
      CopyFrom(candidate);
      NotFrozen(frozen, this, publishedState);
      PublishCurrentEngineState();
    }

    /** Builds the replacement aside, batch by batch. */
    method BuildReplacement(source: seq<ParsedNamespace>, files: seq<PolicyText.PolicyTextFile>)
      returns (r: Result<ConsistencyToken, PublicationError>, candidate: WriterState, ghost imported: seq<Relationship>)
      requires Valid()
      ensures fresh(candidate) && candidate.datastoreId == datastoreId && candidate.retainedSnapshots == retainedSnapshots
      ensures r.Err? && PolicyFits(source, files) ==> Exhausted(r.error)
      ensures r.Ok? ==> SourceLegal(source) && Publishable(Merged(map[], ConfigsFrom(source))) && Imports(source, files, imported)
      ensures r.Ok? ==> candidate.Valid() && candidate.Oldest() >= Oldest() && candidate.currentSnapshot.Some?
      ensures r.Ok? ==> log < candidate.log && r.value == TokenOf(candidate.currentSnapshot.value, datastoreId)
      ensures r.Ok? ==> candidate.configs == Merged(map[], ConfigsFrom(source)) && candidate.Contents() == Members(imported)
    {
      hide Consistent, Contents, SourceLegal, Publishable, ConfigsFrom, Merged, AllResolveIn;
      imported := [];
      candidate := new WriterState.ForReplacementOf(this);
      var token := candidate.ReplaceDsl(source);
      if token.Err? {
        NothingResolves(Merged(map[], ConfigsFrom(source)));
        return Err(token.error), candidate, [];
      }
      candidate.CurrentIsSound();
      var relationships := PolicyText.ParseRelationships(files);
      if relationships.Err? {
        return Err(Text(relationships.error)), candidate, [];
      }
      ImportsAreUnique(source, files, relationships.value);
      var last := candidate.CreateAll(relationships.value, token.value);
      imported := relationships.value;
      r := last;
    }

    /** Replaces everything by what a policy says. Readers see either the final snapshot of the replacement or
        nothing of it. */
    method ApplyPolicy(source: seq<ParsedNamespace>, files: seq<PolicyText.PolicyTextFile>)
      returns (r: Result<ConsistencyToken, PublicationError>, ghost imported: seq<Relationship>)
      requires Valid()
      modifies this, publishedState
      ensures r.Err? ==> unchanged(this) && unchanged(publishedState) && (Exhausted(r.error) || !PolicyFits(source, files))
      ensures r.Ok? ==> SourceLegal(source) && Publishable(Merged(map[], ConfigsFrom(source))) && Imports(source, files, imported)
      ensures r.Ok? ==> Valid() && Oldest() >= old(Oldest()) && currentSnapshot.Some?
      ensures r.Ok? ==> old(log) < log && r.value == TokenOf(currentSnapshot.value, datastoreId)
      ensures r.Ok? ==> configs == Merged(map[], ConfigsFrom(source)) && Contents() == Members(imported)
    {
      hide Consistent, Contents, SourceLegal, Publishable, ConfigsFrom, Merged, Imports, PolicyFits;
      var candidate;
      r, candidate, imported := BuildReplacement(source, files);
      if r.Ok? {
        TakeOver(candidate);
      }
    }

    // -------------------------------------------------------------- tokens

    /** Whatever commands have run, what readers see retains the end of everything published. */
    lemma ReadersSeeTheEnd()
      requires Valid() && currentSnapshot.Some?
      ensures publishedState.state.Some? && Numbered(log) && RetainsEnd(publishedState.state.value, log)
      ensures publishedState.state.value.datastoreId == datastoreId && log != [] && currentSnapshot.value == log[|log| - 1]
      ensures |log| - |publishedState.state.value.history| == Oldest()
    {
      hide Kept, Anchored, ContentsOf, Inert, Keyed;
    }

    /** Every token a command ever returned resolves to the snapshot it was issued for, or has expired; the
        relationships of that snapshot resolve in its own schema. */
    lemma IssuedTokensResolve(i: nat)
      requires Valid() && currentSnapshot.Some? && i < |log|
      ensures publishedState.state.Some?
      ensures publishedState.state.value.SnapshotForToken(TokenOf(log[i], datastoreId))
              == if i < Oldest() then Err(RevisionExpired(i + 1)) else Ok(log[i])
      ensures Kept(log[i], frozen)
    {
      hide Kept, Anchored, ContentsOf, Inert, Keyed;
      ReadersSeeTheEnd();
      IssuedTokenResolves(publishedState.state.value, log, i);
    }
  }
}
