/** How far a resource walk can get: it stays inside every set of subjects that is closed under the rows
    and edges it may follow. */
module ResourceBounds {
  import opened Vocabulary
  import opened Domain
  import opened Schema
  import opened Semantics
  import opened MemoCorrect
  import opened Planner
  import opened RelationReach
  import opened RelationEdges
  import opened ResourceWalk
  import opened ResourceCoverage
  import opened ResourceClosure

  /** Everything that may follow from the territory lies in it, rows that may be pruned included. */
  ghost predicate Confines(w: Walk, territory: set<User>, candidates: set<Object>) {
    && Closed(w, territory, candidates)
    && forall subject :: subject in territory ==> PrunableStays(w, subject, territory, candidates)
  }

  ghost predicate PrunableStays(w: Walk, subject: User, territory: set<User>, candidates: set<Object>) {
    forall row :: Live(w.snapshot.rows, row) && MatchesSubject(row.subject, FilterOf(subject)) && w.Prunable(row) ==>
      Userset(row.resource, row.relation) in territory && row.resource in candidates
  }

  ghost predicate Within(st: WalkState, territory: set<User>, candidates: set<Object>) {
    && st.visited <= territory && st.seen <= candidates
    && (forall i :: 0 <= i < |st.frontier| ==> st.frontier[i].subject in territory)
    && (forall entity :: entity in st.resources ==> entity in st.seen)
  }

  lemma EnqueueStays(st: WalkState, subject: User, proof: SubjectProof, territory: set<User>, candidates: set<Object>)
    requires Within(st, territory, candidates) && subject in territory
    ensures Within(Enqueued(st, subject, proof), territory, candidates)
  {
  }

  lemma ConsideredStays(w: Walk, st: WalkState, entity: Object, verification: Verification, territory: set<User>, candidates: set<Object>)
    requires Within(st, territory, candidates) && entity in candidates
    ensures Within(Considered(w, st, entity, verification), territory, candidates)
  {
    hide Member, ResidualsHold;
  }

  lemma {:induction false} ExpandTargetsStays(w: Walk, st: WalkState, entity: Object, targets: seq<string>, territory: set<User>, candidates: set<Object>)
    requires Within(st, territory, candidates) && ExpandTargets(w, st, entity, targets).Ok?
    requires forall r :: r in targets && w.posted(FilterOf(Userset(entity, r))) ==> Userset(entity, r) in territory
    ensures Within(ExpandTargets(w, st, entity, targets).value, territory, candidates)
    decreases |targets|
  {
    hide Within;
    if targets != [] {
      var expanded := Userset(entity, targets[0]);
      var posted := w.posted(FilterOf(expanded));
      if posted {
        EnqueueStays(st, expanded, INEXACT, territory, candidates);
      }
      ExpandTargetsStays(w, if posted then Enqueued(st, expanded, INEXACT) else st, entity, targets[1..], territory, candidates);
    }
  }

  lemma RowStepStays(w: Walk, st: WalkState, row: Relationship, entry: FrontierEntry, territory: set<User>, candidates: set<Object>)
    requires Within(st, territory, candidates) && RowStep(w, st, row, entry).Ok?
    requires Userset(row.resource, row.relation) in territory && (w.OfRequestedType(row.resource) ==> row.resource in candidates)
    ensures Within(RowStep(w, st, row, entry).value, territory, candidates)
  {
    hide Considered, Enqueued;
    var sampled := Sampled(w, st, row);
    assert Within(sampled, territory, candidates);
    if w.RelationshipProof(row, entry.proof).Ok? {
      var proof := w.RelationshipProof(row, entry.proof).value;
      var verification := w.VerificationFor(row, proof);
      if w.OfRequestedType(row.resource) {
        ConsideredStays(w, sampled, row.resource, verification, territory, candidates);
      }
      var considered := if w.OfRequestedType(row.resource) && !Prunes(w, st, row)
        then Considered(w, sampled, row.resource, verification) else sampled;
      EnqueueStays(considered, Userset(row.resource, row.relation), proof, territory, candidates);
    }
  }

  lemma {:induction false} RowsStepStays(w: Walk, st: WalkState, rows: seq<Relationship>, entry: FrontierEntry, territory: set<User>, candidates: set<Object>)
    requires Within(st, territory, candidates) && RowsStep(w, st, rows, entry).Ok?
    requires forall row :: row in rows ==>
               Userset(row.resource, row.relation) in territory && (w.OfRequestedType(row.resource) ==> row.resource in candidates)
    ensures Within(RowsStep(w, st, rows, entry).value, territory, candidates)
    decreases |rows|
  {
    hide Within, RowStep;
    if rows != [] && !Full(w, st) {
      RowStepStays(w, st, rows[0], entry, territory, candidates);
      RowsStepStays(w, RowStep(w, st, rows[0], entry).value, rows[1..], entry, territory, candidates);
    }
  }

  lemma TargetStepStays(w: Walk, st: WalkState, row: Relationship, t: TupleTarget, territory: set<User>, candidates: set<Object>)
    requires Within(st, territory, candidates) && TargetStep(w, st, row, t).Ok?
    requires TargetFollowed(w, row, t, territory, candidates)
    ensures Within(TargetStep(w, st, row, t).value, territory, candidates)
  {
    hide Considered, Enqueued, Within;
    if row.resource.namespace == t.resourceType && row.relation == t.tupleset {
      if w.OfRequestedType(row.resource) {
        ConsideredStays(w, st, row.resource, FullRoot, territory, candidates);
      }
      var considered := if w.OfRequestedType(row.resource) then Considered(w, st, row.resource, FullRoot) else st;
      var next := Userset(row.resource, t.target);
      if w.posted(FilterOf(next)) {
        EnqueueStays(considered, next, INEXACT, territory, candidates);
      }
    }
  }

  lemma {:induction false} TargetsStepStays(w: Walk, st: WalkState, row: Relationship, targets: seq<TupleTarget>, territory: set<User>, candidates: set<Object>)
    requires Within(st, territory, candidates) && TargetsStep(w, st, row, targets).Ok?
    requires forall t :: t in targets ==> TargetFollowed(w, row, t, territory, candidates)
    ensures Within(TargetsStep(w, st, row, targets).value, territory, candidates)
    decreases |targets|
  {
    hide Within, TargetStep, TargetFollowed;
    if targets != [] && !Full(w, st) {
      TargetStepStays(w, st, row, targets[0], territory, candidates);
      TargetsStepStays(w, TargetStep(w, st, row, targets[0]).value, row, targets[1..], territory, candidates);
    }
  }

  lemma {:induction false} TupleRowsStepStays(w: Walk, st: WalkState, rows: seq<Relationship>, targets: seq<TupleTarget>, territory: set<User>, candidates: set<Object>)
    requires Within(st, territory, candidates) && TupleRowsStep(w, st, rows, targets).Ok?
    requires forall row, t :: row in rows && t in targets ==> TargetFollowed(w, row, t, territory, candidates)
    ensures Within(TupleRowsStep(w, st, rows, targets).value, territory, candidates)
    decreases |rows|
  {
    hide Within, TargetsStep, TargetFollowed;
    if rows != [] && !Full(w, st) {
      assert rows[0] in rows;
      TargetsStepStays(w, st, rows[0], targets, territory, candidates);
      TupleRowsStepStays(w, TargetsStep(w, st, rows[0], targets).value, rows[1..], targets, territory, candidates);
    }
  }

  lemma ExpandStepStays(w: Walk, st: WalkState, subject: User, territory: set<User>, candidates: set<Object>)
    requires WellFormed(w.snapshot.schema) && Confines(w, territory, candidates) && subject in territory
    requires Within(st, territory, candidates) && ExpandStep(w, st, subject).Ok?
    ensures Within(ExpandStep(w, st, subject).value, territory, candidates)
  {
    hide Within, Includes, NamedFollowed, TuplesFollowed, PrunableStays;
    if subject.Userset? {
      assert Followed(w, subject, territory, candidates);
      SameObjectExpansionsAreExact(w.snapshot.schema, subject.entity.namespace, subject.relation);
      ExpandTargetsStays(w, st, subject.entity, SameObjectExpansions(w.snapshot.schema, subject.entity.namespace, subject.relation).value,
                         territory, candidates);
    }
  }

  lemma NamedRowsStepStays(w: Walk, st: WalkState, entry: FrontierEntry, territory: set<User>, candidates: set<Object>)
    requires Confines(w, territory, candidates) && entry.subject in territory
    requires Within(st, territory, candidates) && NamedRowsStep(w, st, entry).Ok?
    ensures Within(NamedRowsStep(w, st, entry).value, territory, candidates)
  {
    hide Within, Expanded, TuplesFollowed, RowsStep;
    var filter := FilterOf(entry.subject);
    QueryIsLive(w.snapshot.rows, (row: Relationship) => MatchesSubject(row.subject, filter));
    assert Followed(w, entry.subject, territory, candidates) && PrunableStays(w, entry.subject, territory, candidates);
    var rows := ReverseQuery(w.snapshot.rows, filter);
    forall row | row in rows
      ensures Userset(row.resource, row.relation) in territory && (w.OfRequestedType(row.resource) ==> row.resource in candidates)
    {
      assert RowFollowed(w, row, territory, candidates);
    }
    RowsStepStays(w, st, rows, entry, territory, candidates);
  }

  lemma TupleStepStays(w: Walk, st: WalkState, subject: User, territory: set<User>, candidates: set<Object>)
    requires WellFormed(w.snapshot.schema) && Confines(w, territory, candidates) && subject in territory
    requires Within(st, territory, candidates) && TupleStep(w, st, subject).Ok?
    ensures Within(TupleStep(w, st, subject).value, territory, candidates)
  {
    hide Within, Expanded, NamedFollowed, PrunableStays, TupleRowsStep, TupleTargets, TupleEdge, TargetFollowed;
    if subject.Userset? {
      var entity := subject.entity;
      var filter := SubjectFilter(entity.namespace, Some(entity.id), None);
      TupleTargetsAreExact(w.snapshot.schema, entity.namespace, subject.relation);
      var targets := TupleTargets(w.snapshot.schema, w.snapshot.schema.definitions, entity.namespace, subject.relation).value;
      SelectMembers(targets, (t: TupleTarget) => w.Broad(t, entity));
      QueryIsLive(w.snapshot.rows, (row: Relationship) => MatchesSubject(row.subject, filter));
      assert Followed(w, subject, territory, candidates);
      var broad := w.BroadTargets(targets, entity);
      if broad != [] {
        TupleRowsStepStays(w, st, ReverseQuery(w.snapshot.rows, filter), broad, territory, candidates);
      }
    }
  }

  lemma StepStays(w: Walk, st: WalkState, territory: set<User>, candidates: set<Object>)
    requires WellFormed(w.snapshot.schema) && Confines(w, territory, candidates)
    requires Within(st, territory, candidates) && Step(w, st).Ok?
    ensures Within(Step(w, st).value, territory, candidates)
  {
    hide WellFormed, Confines, ExpandStep, NamedRowsStep, TupleStep;
    if !Done(w, st) {
      var entry := st.frontier[0];
      var popped := st.(frontier := st.frontier[1..]);
      ExpandStepStays(w, popped, entry.subject, territory, candidates);
      var expanded := ExpandStep(w, popped, entry.subject).value;
      NamedRowsStepStays(w, expanded, entry, territory, candidates);
      var named := NamedRowsStep(w, expanded, entry).value;
      if !Full(w, named) {
        TupleStepStays(w, named, entry.subject, territory, candidates);
      }
    }
  }

  /** The walk stays where it is confined: together with what a swept walk has followed, the subjects
      visited without pruning are the least closed set. */
  lemma {:induction false} WalkStays(w: Walk, n: nat, territory: set<User>, candidates: set<Object>)
    requires WellFormed(w.snapshot.schema) && Confines(w, territory, candidates) && After(w, n).Ok?
    ensures Within(After(w, n).value, territory, candidates)
  {
    hide WellFormed, Step;
    if n > 0 {
      WalkStays(w, n - 1, territory, candidates);
      StepStays(w, After(w, n - 1).value, territory, candidates);
    }
  }

  lemma OutsideIsNotReturned(w: Walk, territory: set<User>, candidates: set<Object>, entity: Object)
    requires WellFormed(w.snapshot.schema) && Confines(w, territory, candidates) && entity !in candidates
    ensures forall resources :: Yields(w, resources) ==> entity !in resources
  {
    hide WellFormed, Confines, After;
    forall resources | Yields(w, resources) ensures entity !in resources {
      var n: nat :| FinishedAfter(w, n) && After(w, n).value.resources == resources;
      WalkStays(w, n, territory, candidates);
    }
  }

  /** Whatever set of subjects is closed under the walk's steps, the object is among its candidates. */
  ghost predicate Reachable(w: Walk, entity: Object) {
    forall territory, candidates :: Confines(w, territory, candidates) ==> entity in candidates
  }

  /** No live row may be pruned. */
  ghost predicate Unpruned(w: Walk) {
    forall row :: Live(w.snapshot.rows, row) ==> !w.Prunable(row)
  }

  /** No row can be pruned, and no rule is contested. */
  ghost predicate Unhindered(w: Walk) {
    Unpruned(w) && (w.plan.Some? ==> Uncontested(w.plan.value.rules))
  }

  /** Without rows to prune and without contested rules, a walk below the cap misses a member exactly if
      the rows and edges it may follow do not lead to it. */
  lemma MembersAreReturnedIfReachable(w: Walk, resources: seq<Object>, entity: Object)
    requires WellFormed(w.snapshot.schema) && Regular(w.snapshot) && Planned(w)
    requires Unhindered(w)
    requires Yields(w, resources) && |resources| < w.limits.maxLookupResults
    requires w.Holds(entity)
    ensures entity in resources <==> Reachable(w, entity)
  {
    hide WellFormed, Regular, Member, Planned, After, Followed, Uncontested, Unpruned, Within;
    var n: nat :| FinishedAfter(w, n) && After(w, n).value.resources == resources;
    var st := After(w, n).value;
    AllVerificationsAreFair(w);
    WalkKeepsPromises(w, n);
    assert Closed(w, st.visited, st.seen);
    if Reachable(w, entity) {
      UnprunedConfines(w, st.visited, st.seen);
      assert entity in st.seen;
    }
    if entity in resources {
      forall territory, candidates | Confines(w, territory, candidates) ensures entity in candidates {
        OutsideIsNotReturnedBy(w, n, territory, candidates, entity);
      }
    }
  }

  lemma UnprunedConfines(w: Walk, visited: set<User>, seen: set<Object>)
    requires Closed(w, visited, seen) && Unpruned(w)
    ensures Confines(w, visited, seen)
  {
    hide Closed;
  }

  lemma OutsideIsNotReturnedBy(w: Walk, n: nat, territory: set<User>, candidates: set<Object>, entity: Object)
    requires WellFormed(w.snapshot.schema) && Confines(w, territory, candidates)
    requires After(w, n).Ok? && entity in After(w, n).value.resources
    ensures entity in candidates
  {
    hide WellFormed, Confines, After;
    WalkStays(w, n, territory, candidates);
  }

  // ---------------------------------------------------------------- turned down for good

  lemma {:induction false} TurnedDownStays(w: Walk, n: nat, from: nat, entity: Object)
    requires WellFormed(w.snapshot.schema) && from <= n && After(w, n).Ok?
    requires After(w, from).Ok? ==> entity in After(w, from).value.seen && entity !in After(w, from).value.resources
    ensures entity in After(w, n).value.seen && entity !in After(w, n).value.resources
    decreases n
  {
    hide WellFormed, Step;
    if from < n {
      TurnedDownStays(w, n - 1, from, entity);
      StepGrows(w, After(w, n - 1).value);
    }
  }

  lemma StepGrows(w: Walk, st: WalkState)
    requires WellFormed(w.snapshot.schema) && Step(w, st).Ok?
    ensures var next := Step(w, st).value;
            && st.seen <= next.seen && (forall entity :: entity in st.seen && entity in next.resources ==> entity in st.resources)
            && (!Done(w, st) ==> |next.visited| - |next.frontier| == |st.visited| - |st.frontier| + 1)
  {
    hide WellFormed, ExpandStep, NamedRowsStep, TupleStep, Expanded, NamedFollowed, TuplesFollowed, Pending;
    if !Done(w, st) {
      var entry := st.frontier[0];
      var popped := st.(frontier := st.frontier[1..]);
      ExpandStepFollows(w, popped, entry.subject);
      var expanded := ExpandStep(w, popped, entry.subject).value;
      NamedRowsStepFollows(w, expanded, entry);
      var named := NamedRowsStep(w, expanded, entry).value;
      if !Full(w, named) {
        TupleStepFollows(w, named, entry.subject);
      }
    }
  }

  /** A resource turned down in one step is not returned by the walk. */
  lemma TurnedDownIsNotReturned(w: Walk, from: nat, entity: Object)
    requires WellFormed(w.snapshot.schema)
    requires After(w, from).Ok? ==> entity in After(w, from).value.seen && entity !in After(w, from).value.resources
    ensures forall resources :: Yields(w, resources) ==> entity !in resources
  {
    hide WellFormed, After;
    forall resources | Yields(w, resources) ensures entity !in resources {
      var n: nat :| FinishedAfter(w, n) && After(w, n).value.resources == resources;
      if n < from {
        FinishedStays(w, n, from);
      } else {
        TurnedDownStays(w, n, from, entity);
      }
    }
  }

  // ---------------------------------------------------------------- the walk ends

  /** Identifiers are valid and every stored row resolves, as published snapshots promise. */
  ghost predicate Sane(w: Walk) {
    && WellFormed(w.snapshot.schema) && Walkable(w, w.request.subject)
    && (forall row :: Live(w.snapshot.rows, row) ==> RowIsSane(w, row))
    && (forall namespace, relation :: w.snapshot.schema.resolver.Relation(namespace, relation).Ok? ==> ValidTypeName(relation))
  }

  ghost predicate RowIsSane(w: Walk, row: Relationship) {
    ValidRelationship(row) && w.snapshot.schema.resolver.Relation(row.resource.namespace, row.relation).Ok?
  }

  ghost predicate Walkable(w: Walk, subject: User) {
    ValidUser(subject) && (subject.Userset? ==> w.snapshot.schema.resolver.Namespace(subject.entity.namespace).Ok?)
  }

  ghost predicate AllWalkable(w: Walk, st: WalkState) {
    forall i :: 0 <= i < |st.frontier| ==> Walkable(w, st.frontier[i].subject)
  }

  lemma {:induction false} ExpandTargetsSucceeds(w: Walk, st: WalkState, entity: Object, targets: seq<string>)
    requires AllWalkable(w, st)
    requires forall r :: r in targets ==> Walkable(w, Userset(entity, r))
    ensures ExpandTargets(w, st, entity, targets).Ok? && AllWalkable(w, ExpandTargets(w, st, entity, targets).value)
    decreases |targets|
  {
    if targets != [] {
      var expanded := Userset(entity, targets[0]);
      var first := if w.posted(FilterOf(expanded)) then Enqueued(st, expanded, INEXACT) else st;
      assert AllWalkable(w, first);
      ExpandTargetsSucceeds(w, first, entity, targets[1..]);
    }
  }

  lemma ExpandStepSucceeds(w: Walk, st: WalkState, subject: User)
    requires Sane(w) && Walkable(w, subject) && AllWalkable(w, st)
    ensures ExpandStep(w, st, subject).Ok? && AllWalkable(w, ExpandStep(w, st, subject).value)
  {
    hide WellFormed, Includes, AllWalkable;
    if subject.Userset? {
      SameObjectExpansionsAreExact(w.snapshot.schema, subject.entity.namespace, subject.relation);
      ExpandTargetsSucceeds(w, st, subject.entity, SameObjectExpansions(w.snapshot.schema, subject.entity.namespace, subject.relation).value);
    }
  }

  lemma RowStepSucceeds(w: Walk, st: WalkState, row: Relationship, entry: FrontierEntry)
    requires AllWalkable(w, st) && RowIsSane(w, row)
    ensures RowStep(w, st, row, entry).Ok? && AllWalkable(w, RowStep(w, st, row, entry).value)
  {
    hide Considered;
    var proof := w.RelationshipProof(row, entry.proof).value;
    ConsideredKeepsFrontier(w, Sampled(w, st, row), row.resource, w.VerificationFor(row, proof));
    assert Walkable(w, Userset(row.resource, row.relation));
  }

  lemma ConsideredKeepsFrontier(w: Walk, st: WalkState, entity: Object, verification: Verification)
    ensures Considered(w, st, entity, verification).frontier == st.frontier
  {
    hide Member, ResidualsHold;
  }

  lemma {:induction false} RowsStepSucceeds(w: Walk, st: WalkState, rows: seq<Relationship>, entry: FrontierEntry)
    requires AllWalkable(w, st) && forall row :: row in rows ==> RowIsSane(w, row)
    ensures RowsStep(w, st, rows, entry).Ok? && AllWalkable(w, RowsStep(w, st, rows, entry).value)
    decreases |rows|
  {
    hide RowStep, AllWalkable, RowIsSane;
    if rows != [] && !Full(w, st) {
      RowStepSucceeds(w, st, rows[0], entry);
      RowsStepSucceeds(w, RowStep(w, st, rows[0], entry).value, rows[1..], entry);
    }
  }

  lemma TargetStepSucceeds(w: Walk, st: WalkState, row: Relationship, t: TupleTarget)
    requires AllWalkable(w, st) && RowIsSane(w, row) && ValidTypeName(t.target)
    ensures TargetStep(w, st, row, t).Ok? && AllWalkable(w, TargetStep(w, st, row, t).value)
  {
    hide Considered;
    ConsideredKeepsFrontier(w, st, row.resource, FullRoot);
    assert Walkable(w, Userset(row.resource, t.target));
  }

  lemma {:induction false} TargetsStepSucceeds(w: Walk, st: WalkState, row: Relationship, targets: seq<TupleTarget>)
    requires AllWalkable(w, st) && RowIsSane(w, row) && forall t :: t in targets ==> ValidTypeName(t.target)
    ensures TargetsStep(w, st, row, targets).Ok? && AllWalkable(w, TargetsStep(w, st, row, targets).value)
    decreases |targets|
  {
    hide TargetStep, AllWalkable, RowIsSane;
    if targets != [] && !Full(w, st) {
      TargetStepSucceeds(w, st, row, targets[0]);
      TargetsStepSucceeds(w, TargetStep(w, st, row, targets[0]).value, row, targets[1..]);
    }
  }

  lemma {:induction false} TupleRowsStepSucceeds(w: Walk, st: WalkState, rows: seq<Relationship>, targets: seq<TupleTarget>)
    requires AllWalkable(w, st) && (forall row :: row in rows ==> RowIsSane(w, row)) && forall t :: t in targets ==> ValidTypeName(t.target)
    ensures TupleRowsStep(w, st, rows, targets).Ok? && AllWalkable(w, TupleRowsStep(w, st, rows, targets).value)
    decreases |rows|
  {
    hide TargetsStep, AllWalkable, RowIsSane;
    if rows != [] && !Full(w, st) {
      TargetsStepSucceeds(w, st, rows[0], targets);
      TupleRowsStepSucceeds(w, TargetsStep(w, st, rows[0], targets).value, rows[1..], targets);
    }
  }

  lemma TupleStepSucceeds(w: Walk, st: WalkState, subject: User)
    requires Sane(w) && Walkable(w, subject) && AllWalkable(w, st)
    ensures TupleStep(w, st, subject).Ok? && AllWalkable(w, TupleStep(w, st, subject).value)
  {
    hide WellFormed, Includes, TupleBelow, AllWalkable, TupleRowsStep, TupleTargets, RowIsSane;
    if subject.Userset? {
      var entity := subject.entity;
      var filter := SubjectFilter(entity.namespace, Some(entity.id), None);
      TupleTargetsAreExact(w.snapshot.schema, entity.namespace, subject.relation);
      var targets := TupleTargets(w.snapshot.schema, w.snapshot.schema.definitions, entity.namespace, subject.relation).value;
      SelectMembers(targets, (t: TupleTarget) => w.Broad(t, entity));
      QueryIsLive(w.snapshot.rows, (row: Relationship) => MatchesSubject(row.subject, filter));
      TupleRowsStepSucceeds(w, st, ReverseQuery(w.snapshot.rows, filter), w.BroadTargets(targets, entity));
    }
  }

  lemma StepSucceeds(w: Walk, st: WalkState)
    requires Sane(w) && AllWalkable(w, st)
    ensures Step(w, st).Ok? && AllWalkable(w, Step(w, st).value)
  {
    hide Sane, Walkable, ExpandStep, RowsStep, TupleStep, RowIsSane;
    if !Done(w, st) {
      var entry := st.frontier[0];
      var popped := st.(frontier := st.frontier[1..]);
      ExpandStepSucceeds(w, popped, entry.subject);
      var expanded := ExpandStep(w, popped, entry.subject).value;
      NamedRowsStepSucceeds(w, expanded, entry);
      TupleStepSucceeds(w, NamedRowsStep(w, expanded, entry).value, entry.subject);
    }
  }

  lemma NamedRowsStepSucceeds(w: Walk, st: WalkState, entry: FrontierEntry)
    requires Sane(w) && Walkable(w, entry.subject) && AllWalkable(w, st)
    ensures NamedRowsStep(w, st, entry).Ok? && AllWalkable(w, NamedRowsStep(w, st, entry).value)
  {
    hide RowsStep, RowIsSane, AllWalkable, WellFormed;
    var filter := FilterOf(entry.subject);
    QueryIsLive(w.snapshot.rows, (row: Relationship) => MatchesSubject(row.subject, filter));
    RowsStepSucceeds(w, st, ReverseQuery(w.snapshot.rows, filter), entry);
  }

  /** The finite space of the walk confines it, whatever the data. */
  lemma SpaceConfines(w: Walk)
    requires WellFormed(w.snapshot.schema)
    ensures Confines(w, WalkSpace(w.snapshot, w.request.subject), Resources(w.snapshot.rows))
  {
    hide Includes, TupleBelow;
    var snapshot, subject := w.snapshot, w.request.subject;
    var space, stored := WalkSpace(snapshot, subject), Resources(snapshot.rows);
    forall row | Live(snapshot.rows, row) ensures Userset(row.resource, row.relation) in space && row.resource in stored {
      RowStaysInSpace(snapshot, subject, row);
    }
    forall namespace, relation | snapshot.schema.resolver.Relation(namespace, relation).Ok?
      ensures relation in RelationNames(snapshot.schema.definitions)
    {
      LookupsAgree(snapshot.schema.resolver, snapshot.schema.definitions, namespace, relation);
    }
    forall from, relation | from in space && from.Userset? && relation in RelationNames(snapshot.schema.definitions)
      ensures Userset(from.entity, relation) in space
    {
      EdgeStaysInSpace(snapshot, subject, from, relation);
    }
    forall row, target | Live(snapshot.rows, row) && target in RelationNames(snapshot.schema.definitions)
      ensures Userset(row.resource, target) in space
    {
      TargetStaysInSpace(snapshot, subject, row, target);
    }
    assert forall from :: from in space ==> Followed(w, from, space, stored) && PrunableStays(w, from, space, stored);
  }

  lemma {:induction false} WalkSucceeds(w: Walk, n: nat)
    requires Sane(w)
    ensures After(w, n).Ok? && AllWalkable(w, After(w, n).value)
    ensures Done(w, After(w, n).value) || |After(w, n).value.visited| == |After(w, n).value.frontier| + n
  {
    hide Walkable, Step, Done;
    if n > 0 {
      WalkSucceeds(w, n - 1);
      var before := After(w, n - 1).value;
      StepSucceeds(w, before);
      StepGrows(w, before);
      DoneStays(w, before);
    }
  }

  lemma DoneStays(w: Walk, st: WalkState)
    ensures Done(w, st) ==> Step(w, st) == Ok(st)
  {
  }

  /** On a sane snapshot the walk ends with a result, after no more steps than there are subjects. */
  lemma SaneWalkEnds(w: Walk) returns (resources: seq<Object>)
    requires Sane(w)
    ensures Yields(w, resources)
  {
    hide WellFormed, Confines, Step, AllWalkable, WalkSpace, Walkable, RowIsSane;
    var space := WalkSpace(w.snapshot, w.request.subject);
    var n := |space| + 1;
    WalkSucceeds(w, n);
    SpaceConfines(w);
    WalkStays(w, n, space, Resources(w.snapshot.rows));
    SubsetIsSmaller(After(w, n).value.visited, space);
    assert FinishedAfter(w, n);
    resources := After(w, n).value.resources;
  }
}
