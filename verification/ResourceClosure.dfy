/** A walk that is not cut off by the result cap follows everything it reaches, so where the conditions
    of coverage hold its result is complete. */
module ResourceClosure {
  import opened Vocabulary
  import opened Schema
  import opened Semantics
  import opened MemoCorrect
  import opened Planner
  import opened RelationReach
  import opened RelationEdges
  import opened ResourceWalk
  import opened ResourceCoverage

  ghost predicate Pending(st: WalkState, subject: User) {
    exists i :: 0 <= i < |st.frontier| && st.frontier[i].subject == subject
  }

  /** Nothing reached is forgotten, what is newly reached waits in the frontier once, and what has been
      turned down is not returned later. */
  ghost predicate Grows(st: WalkState, next: WalkState) {
    && st.visited <= next.visited && st.seen <= next.seen && st.resources <= next.resources
    && |next.visited| - |next.frontier| == |st.visited| - |st.frontier|
    && (forall entity :: entity in st.seen && entity in next.resources ==> entity in st.resources)
    && (forall subject :: Pending(st, subject) ==> Pending(next, subject))
    && (forall subject :: subject in next.visited && subject !in st.visited ==> Pending(next, subject))
  }

  lemma EnqueueGrows(st: WalkState, subject: User, proof: SubjectProof)
    ensures Grows(st, Enqueued(st, subject, proof)) && subject in Enqueued(st, subject, proof).visited
  {
    var next := Enqueued(st, subject, proof);
    if subject !in st.visited {
      forall other | Pending(st, other) || other == subject ensures Pending(next, other) {
        if Pending(st, other) {
          var i :| 0 <= i < |st.frontier| && st.frontier[i].subject == other;
          assert next.frontier[i].subject == other;
        } else {
          assert next.frontier[|st.frontier|].subject == other;
        }
      }
    }
  }

  lemma {:induction false} ExpandTargetsFollows(w: Walk, st: WalkState, entity: Object, targets: seq<string>)
    requires ExpandTargets(w, st, entity, targets).Ok?
    ensures var next := ExpandTargets(w, st, entity, targets).value;
            && Grows(st, next) && next.seen == st.seen && next.resources == st.resources
            && forall r :: r in targets && w.posted(FilterOf(Userset(entity, r))) ==> Userset(entity, r) in next.visited
    decreases |targets|
  {
    hide Pending;
    if targets != [] {
      var expanded := Userset(entity, targets[0]);
      EnqueueGrows(st, expanded, INEXACT);
      var first := if w.posted(FilterOf(expanded)) then Enqueued(st, expanded, INEXACT) else st;
      ExpandTargetsFollows(w, first, entity, targets[1..]);
      assert forall r :: r in targets ==> r == targets[0] || r in targets[1..];
    }
  }

  lemma ExpandStepFollows(w: Walk, st: WalkState, subject: User)
    requires WellFormed(w.snapshot.schema) && ExpandStep(w, st, subject).Ok?
    ensures var next := ExpandStep(w, st, subject).value;
            && Grows(st, next) && next.seen == st.seen && next.resources == st.resources
            && (subject.Userset? ==> Expanded(w, subject.entity, subject.relation, next.visited))
  {
    hide Grows, Includes;
    if subject.Userset? {
      var schema, namespace := w.snapshot.schema, subject.entity.namespace;
      var targets := SameObjectExpansions(schema, namespace, subject.relation).value;
      SameObjectExpansionsAreExact(schema, namespace, subject.relation);
      ExpandTargetsFollows(w, st, subject.entity, targets);
    } else {
      assert Grows(st, st) by {
        GrowsNot(st);
      }
    }
  }

  lemma GrowsNot(st: WalkState)
    ensures Grows(st, st)
  {
  }

  lemma ConsideredGrows(w: Walk, st: WalkState, entity: Object, verification: Verification)
    ensures Grows(st, Considered(w, st, entity, verification)) && entity in Considered(w, st, entity, verification).seen
  {
    hide Member, ResidualsHold;
  }

  lemma RowStepFollows(w: Walk, st: WalkState, row: Relationship, entry: FrontierEntry)
    requires RowStep(w, st, row, entry).Ok?
    ensures var next := RowStep(w, st, row, entry).value;
            Grows(st, next) && (!Full(w, next) ==> RowFollowed(w, row, next.visited, next.seen))
  {
    hide Pending, Considered, Enqueued;
    var prune, sampled := Prunes(w, st, row), Sampled(w, st, row);
    assert Grows(st, sampled) by {
      assert forall subject :: Pending(st, subject) <==> Pending(sampled, subject) by {
        SameFrontier(st, sampled);
      }
    }
    if w.RelationshipProof(row, entry.proof).Ok? {
      var proof := w.RelationshipProof(row, entry.proof).value;
      var verification := w.VerificationFor(row, proof);
      ConsideredGrows(w, sampled, row.resource, verification);
      var considered := if w.OfRequestedType(row.resource) && !prune then Considered(w, sampled, row.resource, verification) else sampled;
      EnqueueGrows(considered, Userset(row.resource, row.relation), proof);
    }
  }

  lemma SameFrontier(st: WalkState, next: WalkState)
    requires st.frontier == next.frontier
    ensures forall subject :: Pending(st, subject) <==> Pending(next, subject)
  {
  }

  lemma {:induction false} RowsStepFollows(w: Walk, st: WalkState, rows: seq<Relationship>, entry: FrontierEntry)
    requires RowsStep(w, st, rows, entry).Ok?
    ensures var next := RowsStep(w, st, rows, entry).value;
            Grows(st, next) && (!Full(w, next) ==> forall row :: row in rows ==> RowFollowed(w, row, next.visited, next.seen))
    decreases |rows|
  {
    hide RowStep, Pending;
    if rows != [] && !Full(w, st) {
      var first := RowStep(w, st, rows[0], entry).value;
      RowStepFollows(w, st, rows[0], entry);
      RowsStepFollows(w, first, rows[1..], entry);
      assert forall row :: row in rows ==> row == rows[0] || row in rows[1..];
    }
  }

  lemma NamedRowsStepFollows(w: Walk, st: WalkState, entry: FrontierEntry)
    requires NamedRowsStep(w, st, entry).Ok?
    ensures var next := NamedRowsStep(w, st, entry).value;
            Grows(st, next) && (!Full(w, next) ==> NamedFollowed(w, entry.subject, next.visited, next.seen))
  {
    hide RowsStep, Grows, RowFollowed;
    var filter := FilterOf(entry.subject);
    QueryIsLive(w.snapshot.rows, (row: Relationship) => MatchesSubject(row.subject, filter));
    RowsStepFollows(w, st, ReverseQuery(w.snapshot.rows, filter), entry);
  }

  lemma TargetStepFollows(w: Walk, st: WalkState, row: Relationship, t: TupleTarget)
    requires TargetStep(w, st, row, t).Ok?
    ensures var next := TargetStep(w, st, row, t).value;
            Grows(st, next) && (!Full(w, next) ==> TargetFollowed(w, row, t, next.visited, next.seen))
  {
    hide Pending, Considered, Enqueued;
    ConsideredGrows(w, st, row.resource, FullRoot);
    var considered := if w.OfRequestedType(row.resource) then Considered(w, st, row.resource, FullRoot) else st;
    EnqueueGrows(considered, Userset(row.resource, t.target), INEXACT);
  }

  lemma {:induction false} TargetsStepFollows(w: Walk, st: WalkState, row: Relationship, targets: seq<TupleTarget>)
    requires TargetsStep(w, st, row, targets).Ok?
    ensures var next := TargetsStep(w, st, row, targets).value;
            Grows(st, next) && (!Full(w, next) ==> forall t :: t in targets ==> TargetFollowed(w, row, t, next.visited, next.seen))
    decreases |targets|
  {
    hide TargetStep, Pending;
    if targets != [] && !Full(w, st) {
      var first := TargetStep(w, st, row, targets[0]).value;
      TargetStepFollows(w, st, row, targets[0]);
      TargetsStepFollows(w, first, row, targets[1..]);
      assert forall t :: t in targets ==> t == targets[0] || t in targets[1..];
    }
  }

  lemma {:induction false} TupleRowsStepFollows(w: Walk, st: WalkState, rows: seq<Relationship>, targets: seq<TupleTarget>)
    requires TupleRowsStep(w, st, rows, targets).Ok?
    ensures var next := TupleRowsStep(w, st, rows, targets).value;
            Grows(st, next) && (!Full(w, next) ==>
              forall row, t :: row in rows && t in targets ==> TargetFollowed(w, row, t, next.visited, next.seen))
    decreases |rows|
  {
    hide TargetsStep, Pending;
    if rows != [] && !Full(w, st) {
      var first := TargetsStep(w, st, rows[0], targets).value;
      TargetsStepFollows(w, st, rows[0], targets);
      TupleRowsStepFollows(w, first, rows[1..], targets);
      assert forall row :: row in rows ==> row == rows[0] || row in rows[1..];
    }
  }

  lemma TupleStepFollows(w: Walk, st: WalkState, subject: User)
    requires WellFormed(w.snapshot.schema) && TupleStep(w, st, subject).Ok?
    ensures var next := TupleStep(w, st, subject).value;
            Grows(st, next) && (!Full(w, next) && subject.Userset? ==>
              TuplesFollowed(w, subject.entity, subject.relation, next.visited, next.seen))
  {
    hide TupleRowsStep, Grows, TupleTargets, TupleEdge, TargetFollowed;
    GrowsNot(st);
    if subject.Userset? {
      var entity := subject.entity;
      var filter := SubjectFilter(entity.namespace, Some(entity.id), None);
      TupleTargetsAreExact(w.snapshot.schema, entity.namespace, subject.relation);
      var targets := TupleTargets(w.snapshot.schema, w.snapshot.schema.definitions, entity.namespace, subject.relation).value;
      SelectMembers(targets, (t: TupleTarget) => w.Broad(t, entity));
      var broad := w.BroadTargets(targets, entity);
      QueryIsLive(w.snapshot.rows, (row: Relationship) => MatchesSubject(row.subject, filter));
      if broad != [] {
        TupleRowsStepFollows(w, st, ReverseQuery(w.snapshot.rows, filter), broad);
      }
    }
  }

  // ---------------------------------------------------------------- the frontier invariant

  /** Whatever has been visited has been followed or waits in the frontier. */
  ghost predicate Swept(w: Walk, st: WalkState) {
    && w.request.subject in st.visited
    && forall subject :: subject in st.visited ==> Pending(st, subject) || Followed(w, subject, st.visited, st.seen)
  }

  lemma ExpandedGrows(w: Walk, entity: Object, relation: string, visited: set<User>, visited': set<User>)
    requires Expanded(w, entity, relation, visited) && visited <= visited'
    ensures Expanded(w, entity, relation, visited')
  {
  }

  lemma NamedFollowedGrows(w: Walk, subject: User, visited: set<User>, seen: set<Object>, visited': set<User>, seen': set<Object>)
    requires NamedFollowed(w, subject, visited, seen) && visited <= visited' && seen <= seen'
    ensures NamedFollowed(w, subject, visited', seen')
  {
  }

  /** Walking one frontier subject follows it and leaves everything else followed or waiting. */
  lemma StepSweeps(w: Walk, st: WalkState)
    requires WellFormed(w.snapshot.schema) && Swept(w, st)
    requires Step(w, st).Ok? && !Full(w, Step(w, st).value)
    ensures Swept(w, Step(w, st).value)
  {
    hide WellFormed, ExpandStep, NamedRowsStep, TupleStep, Followed, Expanded, NamedFollowed, TuplesFollowed, Pending, Full;
    if !Done(w, st) {
      var entry := st.frontier[0];
      var popped := st.(frontier := st.frontier[1..]);
      ExpandStepFollows(w, popped, entry.subject);
      var expanded := ExpandStep(w, popped, entry.subject).value;
      NamedRowsStepFollows(w, expanded, entry);
      var named := NamedRowsStep(w, expanded, entry).value;
      NotFullBefore(w, named, Step(w, st).value);
      TupleStepFollows(w, named, entry.subject);
      var next := TupleStep(w, named, entry.subject).value;
      NamedFollowedGrows(w, entry.subject, named.visited, named.seen, next.visited, next.seen);
      if entry.subject.Userset? {
        ExpandedGrows(w, entry.subject.entity, entry.subject.relation, expanded.visited, next.visited);
      }
      HeadIsFollowed(w, entry.subject, next);
      GrowsThrough(popped, expanded, named, next);
      forall subject | subject in next.visited && !Pending(next, subject) ensures Followed(w, subject, next.visited, next.seen) {
        if subject != entry.subject {
          PoppedIsHead(st, popped, subject);
          FollowedGrows(w, subject, st.visited, st.seen, next.visited, next.seen);
        }
      }
    }
  }

  lemma HeadIsFollowed(w: Walk, subject: User, st: WalkState)
    requires NamedFollowed(w, subject, st.visited, st.seen)
    requires subject.Userset? ==> Expanded(w, subject.entity, subject.relation, st.visited)
                                  && TuplesFollowed(w, subject.entity, subject.relation, st.visited, st.seen)
    ensures Followed(w, subject, st.visited, st.seen)
  {
  }

  lemma NotFullBefore(w: Walk, st: WalkState, next: WalkState)
    requires !Full(w, next)
    ensures Full(w, st) ==> st != next
  {
  }

  lemma GrowsThrough(a: WalkState, b: WalkState, c: WalkState, d: WalkState)
    requires Grows(a, b) && Grows(b, c) && Grows(c, d)
    ensures Grows(a, d)
  {
    hide Pending;
  }

  lemma PoppedIsHead(st: WalkState, popped: WalkState, subject: User)
    requires st.frontier != [] && popped.frontier == st.frontier[1..] && subject != st.frontier[0].subject
    ensures Pending(st, subject) ==> Pending(popped, subject)
  {
    if Pending(st, subject) {
      var i :| 0 <= i < |st.frontier| && st.frontier[i].subject == subject;
      assert popped.frontier[i - 1].subject == subject;
    }
  }

  // ---------------------------------------------------------------- what was turned down is no member

  /** Every resource seen was returned or is no member. */
  ghost predicate Answered(w: Walk, st: WalkState) {
    forall entity :: entity in st.seen ==> entity in st.resources || !w.Holds(entity)
  }

  /** A verification that is never failed by a member. */
  ghost predicate Fair(w: Walk, entity: Object, verification: Verification) {
    w.Holds(entity) ==> w.Verdict(entity, verification)
  }

  /** Where no rule is contested, residuals are not only sufficient but necessary. */
  lemma UncontestedIsFair(w: Walk, row: Relationship, proof: SubjectProof)
    requires WellFormed(w.snapshot.schema) && Regular(w.snapshot) && Planned(w)
    requires w.plan.Some? ==> Uncontested(w.plan.value.rules)
    requires w.OfRequestedType(row.resource)
    ensures Fair(w, row.resource, w.VerificationFor(row, proof))
  {
    hide WellFormed, Regular, Member, LookupProducerPlan, Produces, ResidualHolds;
    var verification := w.VerificationFor(row, proof);
    if verification.Residual? && w.Holds(row.resource) {
      var user, member, rules := w.request.subject, Member(w.snapshot, w.request.subject), w.plan.value.rules;
      MemberSolves(w.snapshot, user);
      LookupPlanIsCorrect(w.snapshot, user, member, row.resource, w.request.permission);
      RuleIsListed(rules, row.relation);
      var j :| 0 <= j < |rules| && rules[j] == Rule(row.relation, verification);
      var i :| 0 <= i < |rules| && Possible(w.snapshot, user, member, row.resource, rules[i]);
      assert rules[j].verification.Residual? && rules[i].verification.Residual?;
      forall k | 0 <= k < |verification.checks| ensures ResidualHolds(w.snapshot, user, member, row.resource, verification.checks[k]) {
        assert rules[j].verification.checks[k] in rules[i].verification.checks;
      }
    }
  }

  lemma ConsideredAnswers(w: Walk, st: WalkState, entity: Object, verification: Verification)
    requires Answered(w, st) && Fair(w, entity, verification)
    ensures Answered(w, Considered(w, st, entity, verification))
  {
    hide Member, ResidualsHold;
  }

  ghost predicate AlwaysFair(w: Walk) {
    forall row: Relationship, proof :: w.OfRequestedType(row.resource) ==> Fair(w, row.resource, w.VerificationFor(row, proof))
  }

  lemma AllVerificationsAreFair(w: Walk)
    requires WellFormed(w.snapshot.schema) && Regular(w.snapshot) && Planned(w)
    requires w.plan.Some? ==> Uncontested(w.plan.value.rules)
    ensures AlwaysFair(w)
  {
    hide WellFormed, Regular, Planned, Uncontested, Fair;
    forall row: Relationship, proof | w.OfRequestedType(row.resource) ensures Fair(w, row.resource, w.VerificationFor(row, proof)) {
      UncontestedIsFair(w, row, proof);
    }
  }

  lemma RowStepAnswers(w: Walk, st: WalkState, row: Relationship, entry: FrontierEntry)
    requires AlwaysFair(w) && Answered(w, st) && RowStep(w, st, row, entry).Ok?
    ensures Answered(w, RowStep(w, st, row, entry).value)
  {
    hide Member, Fair, Considered;
    var sampled := Sampled(w, st, row);
    if w.RelationshipProof(row, entry.proof).Ok? && w.OfRequestedType(row.resource) {
      ConsideredAnswers(w, sampled, row.resource, w.VerificationFor(row, w.RelationshipProof(row, entry.proof).value));
    }
  }

  lemma {:induction false} RowsStepAnswers(w: Walk, st: WalkState, rows: seq<Relationship>, entry: FrontierEntry)
    requires AlwaysFair(w) && Answered(w, st) && RowsStep(w, st, rows, entry).Ok?
    ensures Answered(w, RowsStep(w, st, rows, entry).value)
    decreases |rows|
  {
    hide AlwaysFair, Answered, RowStep;
    if rows != [] && !Full(w, st) {
      RowStepAnswers(w, st, rows[0], entry);
      RowsStepAnswers(w, RowStep(w, st, rows[0], entry).value, rows[1..], entry);
    }
  }

  lemma TargetStepAnswers(w: Walk, st: WalkState, row: Relationship, t: TupleTarget)
    requires Answered(w, st) && TargetStep(w, st, row, t).Ok?
    ensures Answered(w, TargetStep(w, st, row, t).value)
  {
    hide Member, Considered;
    ConsideredAnswers(w, st, row.resource, FullRoot);
  }

  lemma {:induction false} TargetsStepAnswers(w: Walk, st: WalkState, row: Relationship, targets: seq<TupleTarget>)
    requires Answered(w, st) && TargetsStep(w, st, row, targets).Ok?
    ensures Answered(w, TargetsStep(w, st, row, targets).value)
    decreases |targets|
  {
    hide Answered, TargetStep;
    if targets != [] && !Full(w, st) {
      TargetStepAnswers(w, st, row, targets[0]);
      TargetsStepAnswers(w, TargetStep(w, st, row, targets[0]).value, row, targets[1..]);
    }
  }

  lemma {:induction false} TupleRowsStepAnswers(w: Walk, st: WalkState, rows: seq<Relationship>, targets: seq<TupleTarget>)
    requires Answered(w, st) && TupleRowsStep(w, st, rows, targets).Ok?
    ensures Answered(w, TupleRowsStep(w, st, rows, targets).value)
    decreases |rows|
  {
    hide Answered, TargetsStep;
    if rows != [] && !Full(w, st) {
      TargetsStepAnswers(w, st, rows[0], targets);
      TupleRowsStepAnswers(w, TargetsStep(w, st, rows[0], targets).value, rows[1..], targets);
    }
  }

  lemma TupleStepAnswers(w: Walk, st: WalkState, subject: User)
    requires Answered(w, st) && TupleStep(w, st, subject).Ok?
    ensures Answered(w, TupleStep(w, st, subject).value)
  {
    hide Answered, TupleRowsStep, TupleTargets;
    if subject.Userset? {
      var entity := subject.entity;
      var targets := TupleTargets(w.snapshot.schema, w.snapshot.schema.definitions, entity.namespace, subject.relation).value;
      if w.BroadTargets(targets, entity) != [] {
        TupleRowsStepAnswers(w, st, ReverseQuery(w.snapshot.rows, SubjectFilter(entity.namespace, Some(entity.id), None)), w.BroadTargets(targets, entity));
      }
    }
  }

  lemma StepAnswers(w: Walk, st: WalkState)
    requires WellFormed(w.snapshot.schema) && AlwaysFair(w) && Answered(w, st) && Step(w, st).Ok?
    ensures Answered(w, Step(w, st).value)
  {
    hide WellFormed, AlwaysFair, Member, ExpandStep, RowsStep, TupleStep, Grows, Expanded;
    if !Done(w, st) {
      var entry := st.frontier[0];
      var popped := st.(frontier := st.frontier[1..]);
      ExpandStepFollows(w, popped, entry.subject);
      var expanded := ExpandStep(w, popped, entry.subject).value;
      RowsStepAnswers(w, expanded, ReverseQuery(w.snapshot.rows, FilterOf(entry.subject)), entry);
      var named := NamedRowsStep(w, expanded, entry).value;
      if !Full(w, named) {
        TupleStepAnswers(w, named, entry.subject);
      }
    }
  }

  // ---------------------------------------------------------------- the walk as a whole

  lemma {:induction false} WalkKeepsPromises(w: Walk, n: nat)
    requires WellFormed(w.snapshot.schema) && AlwaysFair(w) && After(w, n).Ok?
    ensures Answered(w, After(w, n).value)
    ensures !Full(w, After(w, n).value) ==> Swept(w, After(w, n).value)
  {
    hide WellFormed, AlwaysFair, Answered, Swept, Step;
    if n == 0 {
      assert Answered(w, Start(w)) && Swept(w, Start(w)) by {
        StartIsSwept(w);
      }
    } else {
      WalkKeepsPromises(w, n - 1);
      var before := After(w, n - 1).value;
      StepAnswers(w, before);
      FullStays(w, before);
      if !Full(w, After(w, n).value) {
        StepSweeps(w, before);
      }
    }
  }

  lemma StartIsSwept(w: Walk)
    ensures Answered(w, Start(w)) && Swept(w, Start(w))
  {
    assert Start(w).frontier[0].subject == w.request.subject;
    assert Pending(Start(w), w.request.subject);
  }

  lemma FullStays(w: Walk, st: WalkState)
    requires Step(w, st).Ok?
    ensures Full(w, st) ==> Full(w, Step(w, st).value)
  {
  }

  /** A finished walk below the cap returns every member of the requested type. */
  lemma FinishedWalkIsComplete(w: Walk, resources: seq<Object>, entity: Object)
    requires WellFormed(w.snapshot.schema) && Regular(w.snapshot)
    requires Planned(w) && Exhaustive(w)
    requires Yields(w, resources) && |resources| < w.limits.maxLookupResults
    requires w.OfRequestedType(entity) && w.Holds(entity)
    ensures entity in resources
  {
    hide WellFormed, Regular, Member, Planned, After, Followed, TupleRowsAreFound, PostsLive, PrunesLeavesOnly, Uncontested;
    var n: nat :| FinishedAfter(w, n) && After(w, n).value.resources == resources;
    var st := After(w, n).value;
    AllVerificationsAreFair(w);
    WalkKeepsPromises(w, n);
    assert Closed(w, st.visited, st.seen);
    ClosedWalkSeesEveryMember(w, st.visited, st.seen, entity);
  }
}
