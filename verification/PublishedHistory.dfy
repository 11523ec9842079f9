/** Published snapshots, consistency tokens and the engine state readers take their snapshots from. */
module PublishedHistory {
  import opened Vocabulary
  import opened Schema
  import opened NamespaceConfigs
  import opened StoreView

  const MAX_REVISION := 0xFFFF_FFFF_FFFF_FFFF

  datatype PublishedSnapshot = PublishedSnapshot(
    revision: nat,
    schemaHash: nat,
    configs: Configs,
    schema: CompiledSchema,
    relationships: RelationshipStoreView)

  datatype ConsistencyToken = ConsistencyToken(revision: nat, schemaHash: nat, datastoreId: nat)

  datatype ConsistencyError =
    | WrongDatastore
    | RevisionUnavailable(revision: nat)
    | RevisionExpired(revision: nat)
    | SchemaHashMismatch(revision: nat)
    | RevisionOverflow

  datatype Consistency = Latest | Exact(token: ConsistencyToken)

  function FirstRevision(): nat { 1 }

  function NextRevision(last: Option<nat>): Result<nat, ConsistencyError> {
    match last
    case None => Ok(FirstRevision())
    case Some(revision) => if revision < MAX_REVISION then Ok(revision + 1) else Err(RevisionOverflow)
  }

  function Find(history: seq<PublishedSnapshot>, revision: nat): Option<PublishedSnapshot> {
    if history == [] then None
    else if history[0].revision == revision then Some(history[0])
    else Find(history[1..], revision)
  }

  /** What readers see; it is replaced as a whole and never changed. */
  datatype EngineState = EngineState(latest: PublishedSnapshot, history: seq<PublishedSnapshot>, datastoreId: nat, lastRevision: nat)
  {
    function SnapshotForToken(token: ConsistencyToken): Result<PublishedSnapshot, ConsistencyError> {
      if token.datastoreId != datastoreId then Err(WrongDatastore)
      else if token.revision > lastRevision then Err(RevisionUnavailable(token.revision))
      else if history != [] && token.revision < history[0].revision then Err(RevisionExpired(token.revision))
      else match Find(history, token.revision)
        case None => Err(RevisionUnavailable(token.revision))
        case Some(snapshot) =>
          if snapshot.schemaHash != token.schemaHash then Err(SchemaHashMismatch(token.revision)) else Ok(snapshot)
    }

    function SnapshotForConsistency(consistency: Consistency): Result<PublishedSnapshot, ConsistencyError> {
      match consistency
      case Latest => Ok(latest)
      case Exact(token) => SnapshotForToken(token)
    }
  }

  // ---------------------------------------------------------------- the log behind the state

  /** The log of everything published, one revision after another. */
  ghost predicate Numbered(log: seq<PublishedSnapshot>) {
    forall i :: 0 <= i < |log| ==> log[i].revision == i + 1
  }

  /** The state retains the end of the log. */
  ghost predicate RetainsEnd(state: EngineState, log: seq<PublishedSnapshot>) {
    && 0 < |state.history| <= |log|
    && state.history == log[|log| - |state.history|..]
    && state.latest == log[|log| - 1]
    && state.lastRevision == |log|
  }

  function TokenOf(snapshot: PublishedSnapshot, datastoreId: nat): ConsistencyToken {
    ConsistencyToken(snapshot.revision, snapshot.schemaHash, datastoreId)
  }

  lemma {:induction false} FindInRow(history: seq<PublishedSnapshot>, first: nat, revision: nat)
    requires forall i :: 0 <= i < |history| ==> history[i].revision == first + i
    ensures Find(history, revision) == if first <= revision < first + |history| then Some(history[revision - first]) else None
  {
    if history != [] && history[0].revision != revision {
      forall i | 0 <= i < |history[1..]| ensures history[1..][i].revision == first + 1 + i {
        assert history[1..][i] == history[i + 1];
      }
      FindInRow(history[1..], first + 1, revision);
    }
  }

  /** The answer to any token whatever: it names the revision it was issued with or nothing. Nothing within
      the published range is ever reported as unavailable. */
  lemma TokenAnswer(state: EngineState, log: seq<PublishedSnapshot>, token: ConsistencyToken)
    requires Numbered(log) && RetainsEnd(state, log) && token.revision >= FirstRevision()
    ensures state.SnapshotForToken(token) ==
      if token.datastoreId != state.datastoreId then Err(WrongDatastore)
      else if token.revision > |log| then Err(RevisionUnavailable(token.revision))
      else if token.revision <= |log| - |state.history| then Err(RevisionExpired(token.revision))
      else if token == TokenOf(log[token.revision - 1], state.datastoreId) then Ok(log[token.revision - 1])
      else Err(SchemaHashMismatch(token.revision))
  {
    var start := |log| - |state.history|;
    forall i | 0 <= i < |state.history| ensures state.history[i].revision == start + 1 + i {
      assert state.history[i] == log[start + i];
    }
    FindInRow(state.history, start + 1, token.revision);
    if start < token.revision <= |log| {
      assert state.history[token.revision - (start + 1)] == log[token.revision - 1];
    }
  }

  /** A token issued for the snapshot at position `i` resolves to that snapshot or has expired. */
  lemma IssuedTokenResolves(state: EngineState, log: seq<PublishedSnapshot>, i: nat)
    requires Numbered(log) && RetainsEnd(state, log) && i < |log|
    ensures state.SnapshotForToken(TokenOf(log[i], state.datastoreId))
            == if i < |log| - |state.history| then Err(RevisionExpired(log[i].revision)) else Ok(log[i])
  {
    TokenAnswer(state, log, TokenOf(log[i], state.datastoreId));
  }

  /** Reading at the token of the latest snapshot is reading the latest snapshot. */
  lemma LatestTokenReadsLatest(state: EngineState, log: seq<PublishedSnapshot>)
    requires Numbered(log) && RetainsEnd(state, log)
    ensures state.SnapshotForConsistency(Exact(TokenOf(state.latest, state.datastoreId))) == state.SnapshotForConsistency(Latest)
    ensures state.SnapshotForConsistency(Latest) == Ok(log[|log| - 1])
  {
    IssuedTokenResolves(state, log, |log| - 1);
  }

  /** A snapshot is only ever handed out for the token it was issued with. */
  lemma ResolvedTokenWasIssued(state: EngineState, log: seq<PublishedSnapshot>, token: ConsistencyToken)
    requires Numbered(log) && RetainsEnd(state, log) && token.revision >= FirstRevision()
    requires state.SnapshotForToken(token).Ok?
    ensures token.revision <= |log| && state.SnapshotForToken(token).value == log[token.revision - 1]
    ensures token == TokenOf(log[token.revision - 1], state.datastoreId)
  {
    TokenAnswer(state, log, token);
  }

  /** Between an earlier and a later state of one engine a token's snapshot does not change, and a token that
      has expired stays expired. */
  lemma TokensAreStable(earlier: EngineState, before: seq<PublishedSnapshot>, later: EngineState, after: seq<PublishedSnapshot>,
                        token: ConsistencyToken)
    requires Numbered(after) && RetainsEnd(earlier, before) && RetainsEnd(later, after)
    requires before <= after && earlier.datastoreId == later.datastoreId
    requires |before| - |earlier.history| <= |after| - |later.history|
    requires FirstRevision() <= token.revision <= |before|
    ensures later.SnapshotForToken(token) == earlier.SnapshotForToken(token) || later.SnapshotForToken(token) == Err(RevisionExpired(token.revision))
    ensures earlier.SnapshotForToken(token) == Err(RevisionExpired(token.revision)) ==>
      later.SnapshotForToken(token) == Err(RevisionExpired(token.revision))
  {
    assert forall i :: 0 <= i < |before| ==> before[i] == after[i];
    TokenAnswer(earlier, before, token);
    TokenAnswer(later, after, token);
  }
}
