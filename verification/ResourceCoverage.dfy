/** When a finished resource walk has missed nobody: everything reached has been followed, and under
    conditions on the schema's rewrites and the stored rows every member's derivation has been reached. */
module ResourceCoverage {
  import opened Vocabulary
  import opened Schema
  import opened Semantics
  import opened Planner
  import opened RelationReach
  import opened RelationEdges
  import opened ResourceWalk

  // ---------------------------------------------------------------- conditions

  /** A live row is posted under every filter it matches. */
  ghost predicate PostsLive(rows: Rows, posted: SubjectFilter -> bool) {
    forall row, filter :: Live(rows, row) && MatchesSubject(row.subject, filter) ==> posted(filter)
  }

  /** Some live row names a userset on the object. */
  ghost predicate Referenced(rows: Rows, entity: Object) {
    exists row :: Live(rows, row) && row.subject.UsersetSubject? && row.subject.entity == entity
  }

  /** No rule of the plan leaves residuals that another rule does not leave too. */
  ghost predicate Uncontested(rules: seq<Rule>) {
    forall i, j :: 0 <= i < |rules| && 0 <= j < |rules| && rules[j].verification.Residual? ==>
      && rules[i].verification.Residual?
      && forall k :: 0 <= k < |rules[j].verification.checks| ==> rules[j].verification.checks[k] in rules[i].verification.checks
  }

  /** Rows of the requested type on unplanned relations sit on objects no row names a userset of. */
  ghost predicate PrunesLeavesOnly(w: Walk) {
    forall row :: Live(w.snapshot.rows, row) && w.Prunable(row) ==> !Referenced(w.snapshot.rows, row.resource)
  }

  /** `computed` on the object needs no further tuple-to-userset step. */
  ghost predicate TupleFree(schema: CompiledSchema, namespace: string, computed: string) {
    forall tupleset, target :: !TupleBelow(schema, namespace, computed, tupleset, target)
  }

  /** Tuple-to-userset steps do not follow one another, and every row a rewrite takes `computed` over
      through is found: either no row names `computed` on that object, or this one does and leads no
      further. */
  ghost predicate TupleRowsAreFound(w: Walk) {
    forall row, computed :: Live(w.snapshot.rows, row) && row.subject.UsersetSubject? && TakesOver(w.snapshot.schema, row, computed) ==>
      && TupleFree(w.snapshot.schema, row.subject.entity.namespace, computed)
      && (!w.posted(FilterOf(Userset(row.subject.entity, computed)))
          || (row.subject.relation == computed && !Referenced(w.snapshot.rows, row.resource)))
  }

  /** What a complete answer needs of the data, the schema and the plan. */
  ghost predicate Exhaustive(w: Walk) {
    && PostsLive(w.snapshot.rows, w.posted)
    && TupleRowsAreFound(w)
    && PrunesLeavesOnly(w)
    && (w.plan.Some? ==> Uncontested(w.plan.value.rules))
  }

  ghost predicate Planned(w: Walk) {
    w.plan.Some? ==> LookupProducerPlan(w.snapshot.schema, w.request.resourceType, w.request.permission) == Ok(w.plan)
  }

  // ---------------------------------------------------------------- what has been followed

  ghost predicate RowFollowed(w: Walk, row: Relationship, visited: set<User>, seen: set<Object>) {
    w.Prunable(row) || (Userset(row.resource, row.relation) in visited && (w.OfRequestedType(row.resource) ==> row.resource in seen))
  }

  ghost predicate NamedFollowed(w: Walk, subject: User, visited: set<User>, seen: set<Object>) {
    forall row :: Live(w.snapshot.rows, row) && MatchesSubject(row.subject, FilterOf(subject)) ==> RowFollowed(w, row, visited, seen)
  }

  ghost predicate Expanded(w: Walk, entity: Object, relation: string, visited: set<User>) {
    forall r :: r != relation && w.snapshot.schema.resolver.Relation(entity.namespace, r).Ok?
                && Includes(w.snapshot.schema, entity.namespace, r, relation) && w.posted(FilterOf(Userset(entity, r))) ==>
      Userset(entity, r) in visited
  }

  ghost predicate TargetFollowed(w: Walk, row: Relationship, t: TupleTarget, visited: set<User>, seen: set<Object>) {
    row.resource.namespace == t.resourceType && row.relation == t.tupleset ==>
      && (w.OfRequestedType(row.resource) ==> row.resource in seen)
      && (w.posted(FilterOf(Userset(row.resource, t.target))) ==> Userset(row.resource, t.target) in visited)
  }

  ghost predicate TuplesFollowed(w: Walk, entity: Object, relation: string, visited: set<User>, seen: set<Object>) {
    forall t, row :: TupleEdge(w.snapshot.schema, entity.namespace, relation, t) && w.Broad(t, entity)
                     && Live(w.snapshot.rows, row) && row.subject.entity == entity ==>
      TargetFollowed(w, row, t, visited, seen)
  }

  ghost predicate Followed(w: Walk, subject: User, visited: set<User>, seen: set<Object>) {
    && NamedFollowed(w, subject, visited, seen)
    && (subject.Userset? ==> Expanded(w, subject.entity, subject.relation, visited)
                             && TuplesFollowed(w, subject.entity, subject.relation, visited, seen))
  }

  lemma FollowedGrows(w: Walk, subject: User, visited: set<User>, seen: set<Object>, visited': set<User>, seen': set<Object>)
    requires visited <= visited' && seen <= seen'
    requires Followed(w, subject, visited, seen)
    ensures Followed(w, subject, visited', seen')
  {
    hide Includes, TupleEdge, Live;
  }

  // ---------------------------------------------------------------- a closed walk has reached every member

  /** `node` includes a relation of its object the walk has visited. */
  ghost predicate Walked(w: Walk, visited: set<User>, node: Node) {
    exists relation :: Userset(node.entity, relation) in visited && Includes(w.snapshot.schema, node.entity.namespace, node.relation, relation)
  }

  /** `node` takes over, through some row, a userset that has been walked. */
  ghost predicate Carried(w: Walk, visited: set<User>, node: Node) {
    exists row: Relationship, computed ::
      && Live(w.snapshot.rows, row) && row.subject.UsersetSubject? && row.resource == node.entity
      && TupleBelow(w.snapshot.schema, node.entity.namespace, node.relation, row.relation, computed)
      && Walked(w, visited, Node(row.subject.entity, computed))
  }

  ghost predicate Covered(w: Walk, visited: set<User>, node: Node) {
    Walked(w, visited, node) || Carried(w, visited, node)
  }

  ghost predicate Closed(w: Walk, visited: set<User>, seen: set<Object>) {
    w.request.subject in visited && forall subject :: subject in visited ==> Followed(w, subject, visited, seen)
  }

  lemma TakesOverBelow(schema: CompiledSchema, row: Relationship, relation: string, computed: string)
    requires TupleBelow(schema, row.resource.namespace, relation, row.relation, computed)
    ensures TakesOver(schema, row, computed)
  {
  }

  /** A carried userset that some row names has been visited: its row was found among the broad ones. */
  lemma CarriedIsVisited(w: Walk, visited: set<User>, seen: set<Object>, node: Node)
    requires Closed(w, visited, seen) && TupleRowsAreFound(w)
    requires Carried(w, visited, node) && Referenced(w.snapshot.rows, node.entity)
    requires w.snapshot.schema.resolver.Relation(node.entity.namespace, node.relation).Ok?
    requires w.posted(FilterOf(Userset(node.entity, node.relation)))
    ensures Userset(node.entity, node.relation) in visited
  {
    hide Includes, TupleBelow, TakesOver, TupleFree, Live, NamedFollowed, Expanded, Referenced;
    var row: Relationship, computed :|
      && Live(w.snapshot.rows, row) && row.subject.UsersetSubject? && row.resource == node.entity
      && TupleBelow(w.snapshot.schema, node.entity.namespace, node.relation, row.relation, computed)
      && Walked(w, visited, Node(row.subject.entity, computed));
    TakesOverBelow(w.snapshot.schema, row, node.relation, computed);
    var entity := row.subject.entity;
    var relation :| Userset(entity, relation) in visited && Includes(w.snapshot.schema, entity.namespace, computed, relation);
    var t := TupleTarget(node.entity.namespace, row.relation, computed, node.relation);
    assert Followed(w, Userset(entity, relation), visited, seen);
    assert TupleEdge(w.snapshot.schema, entity.namespace, relation, t) && w.Broad(t, entity);
    assert TargetFollowed(w, row, t, visited, seen);
  }

  lemma CoveredIsVisited(w: Walk, visited: set<User>, seen: set<Object>, node: Node)
    requires Closed(w, visited, seen) && TupleRowsAreFound(w)
    requires Covered(w, visited, node) && Referenced(w.snapshot.rows, node.entity)
    requires w.snapshot.schema.resolver.Relation(node.entity.namespace, node.relation).Ok?
    requires w.posted(FilterOf(Userset(node.entity, node.relation)))
    ensures Userset(node.entity, node.relation) in visited
  {
    hide Includes, TupleRowsAreFound, TuplesFollowed, NamedFollowed, Referenced, Carried;
    if Walked(w, visited, node) {
      var relation :| Userset(node.entity, relation) in visited && Includes(w.snapshot.schema, node.entity.namespace, node.relation, relation);
      assert Followed(w, Userset(node.entity, relation), visited, seen);
    } else {
      CarriedIsVisited(w, visited, seen, node);
    }
  }

  /** Where the truth of a rewrite comes from: a row, another relation of the object, or a row it takes
      over. */
  ghost predicate FromRow(snapshot: Snapshot, user: User, val: Valuation, node: Node) {
    exists row :: row in RowsOn(snapshot.rows, node.entity, node.relation) && Gives(user, val, row)
  }

  ghost predicate Gives(user: User, val: Valuation, row: Relationship) {
    || MatchesSubject(row.subject, FilterOf(user))
    || (row.subject.UsersetSubject? && val(Node(row.subject.entity, row.subject.relation)))
  }

  ghost predicate FromRelation(val: Valuation, node: Node, e: CompiledExpression) {
    exists used :: Uses(e, used) && val(Node(node.entity, used))
  }

  ghost predicate FromTuple(snapshot: Snapshot, val: Valuation, node: Node, e: CompiledExpression) {
    exists row: Relationship, computed ::
      && UsesTuple(e, row.relation, computed) && row in RowsOn(snapshot.rows, node.entity, row.relation)
      && row.subject.UsersetSubject? && val(Node(row.subject.entity, computed))
  }

  ghost predicate HasOrigin(snapshot: Snapshot, user: User, val: Valuation, node: Node, e: CompiledExpression) {
    FromRow(snapshot, user, val, node) || FromRelation(val, node, e) || FromTuple(snapshot, val, node, e)
  }

  lemma OperandOrigin(snapshot: Snapshot, user: User, val: Valuation, node: Node, e: CompiledExpression, operand: CompiledExpression)
    requires HasOrigin(snapshot, user, val, node, operand)
    requires forall used :: Uses(operand, used) ==> Uses(e, used)
    requires forall tupleset, computed :: UsesTuple(operand, tupleset, computed) ==> UsesTuple(e, tupleset, computed)
    ensures HasOrigin(snapshot, user, val, node, e)
  {
  }

  lemma {:induction false} TruthHasOrigin(snapshot: Snapshot, user: User, val: Valuation, node: Node, e: CompiledExpression)
    requires Linked(snapshot.schema, node.entity.namespace, e)
    requires ExprHolds(snapshot, user, val, node, e)
    ensures HasOrigin(snapshot, user, val, node, e)
  {
    match e
    case This =>
      RowsOnAreLive(snapshot.rows, node.entity, node.relation);
      assert FromRow(snapshot, user, val, node);
    case ComputedUserset(used, _, _) => assert Uses(e, used);
    case TupleToUserset(tupleset, _, computed) =>
      RowsOnAreLive(snapshot.rows, node.entity, tupleset);
      assert UsesTuple(e, tupleset, computed);
      assert FromTuple(snapshot, val, node, e);
    case Union(children) =>
      var i :| 0 <= i < |children| && ExprHolds(snapshot, user, val, node, children[i]);
      TruthHasOrigin(snapshot, user, val, node, children[i]);
      OperandOrigin(snapshot, user, val, node, e, children[i]);
    case Intersection(children) =>
      TruthHasOrigin(snapshot, user, val, node, children[0]);
      OperandOrigin(snapshot, user, val, node, e, children[0]);
    case Exclusion(base, _) =>
      TruthHasOrigin(snapshot, user, val, node, base);
      OperandOrigin(snapshot, user, val, node, e, base);
  }

  /** One unfolding at a node: its rows, or what its rewrite refers to. */
  lemma BodyHasOrigin(snapshot: Snapshot, user: User, val: Valuation, node: Node)
    requires WellFormed(snapshot.schema) && BodyHolds(snapshot, user, val, node)
    ensures snapshot.schema.resolver.Relation(node.entity.namespace, node.relation).Ok?
    ensures var rewrite := RewriteOf(snapshot.schema, node.entity.namespace, node.relation);
            HasOrigin(snapshot, user, val, node, if rewrite.Some? then rewrite.value else This)
  {
    FoundIsLinked(snapshot.schema, node.entity.namespace, node.relation);
    var rewrite := RewriteOf(snapshot.schema, node.entity.namespace, node.relation);
    TruthHasOrigin(snapshot, user, val, node, if rewrite.Some? then rewrite.value else This);
  }

  /** At one stage of the iteration every true userset on a referenced object is covered. */
  ghost predicate StageCovered(w: Walk, visited: set<User>, val: Valuation) {
    forall node :: val(node) && Referenced(w.snapshot.rows, node.entity) ==> Covered(w, visited, node)
  }

  ghost predicate Defined(schema: CompiledSchema, val: Valuation) {
    forall node :: val(node) ==> schema.resolver.Relation(node.entity.namespace, node.relation).Ok?
  }

  lemma StageIsDefined(snapshot: Snapshot, user: User, n: nat)
    ensures Defined(snapshot.schema, Iterate(snapshot, user, {}, n))
  {
  }

  /** A row that gives its userset to the subject has been followed. */
  lemma GivingRowIsFollowed(w: Walk, visited: set<User>, seen: set<Object>, val: Valuation, row: Relationship)
    requires Closed(w, visited, seen) && TupleRowsAreFound(w) && PostsLive(w.snapshot.rows, w.posted)
    requires StageCovered(w, visited, val) && Defined(w.snapshot.schema, val)
    requires Live(w.snapshot.rows, row) && Gives(w.request.subject, val, row)
    ensures RowFollowed(w, row, visited, seen)
  {
    hide TupleRowsAreFound, Covered, TuplesFollowed, Expanded;
    if MatchesSubject(row.subject, FilterOf(w.request.subject)) {
      assert Followed(w, w.request.subject, visited, seen);
    } else {
      var node := Node(row.subject.entity, row.subject.relation);
      var subject := Userset(node.entity, node.relation);
      assert Referenced(w.snapshot.rows, node.entity);
      assert MatchesSubject(row.subject, FilterOf(subject));
      CoveredIsVisited(w, visited, seen, node);
      assert Followed(w, subject, visited, seen);
    }
  }

  /** A row through which something true is taken over starts from a walked userset. */
  lemma TakenOverIsWalked(w: Walk, visited: set<User>, seen: set<Object>, val: Valuation, row: Relationship, computed: string)
    requires TupleRowsAreFound(w) && StageCovered(w, visited, val)
    requires Live(w.snapshot.rows, row) && row.subject.UsersetSubject? && TakesOver(w.snapshot.schema, row, computed)
    requires val(Node(row.subject.entity, computed))
    ensures Walked(w, visited, Node(row.subject.entity, computed))
  {
    hide TakesOver, Walked, TupleBelow, Live;
    assert Referenced(w.snapshot.rows, row.subject.entity);
    assert Covered(w, visited, Node(row.subject.entity, computed));
    assert TupleFree(w.snapshot.schema, row.subject.entity.namespace, computed);
  }

  lemma CoveredThroughRow(w: Walk, visited: set<User>, seen: set<Object>, val: Valuation, node: Node)
    requires Closed(w, visited, seen) && TupleRowsAreFound(w) && PostsLive(w.snapshot.rows, w.posted) && PrunesLeavesOnly(w)
    requires StageCovered(w, visited, val) && Defined(w.snapshot.schema, val)
    requires Referenced(w.snapshot.rows, node.entity) && FromRow(w.snapshot, w.request.subject, val, node)
    ensures Covered(w, visited, node)
  {
    hide Closed, TupleRowsAreFound, PostsLive, StageCovered, Defined, Includes, Carried, Gives, Referenced;
    RowsOnAreLive(w.snapshot.rows, node.entity, node.relation);
    var row :| row in RowsOn(w.snapshot.rows, node.entity, node.relation) && Gives(w.request.subject, val, row);
    GivingRowIsFollowed(w, visited, seen, val, row);
    IncludesItself(w.snapshot.schema, node.entity.namespace, node.relation);
    assert Walked(w, visited, node);
  }

  lemma CoveredThroughRelation(w: Walk, visited: set<User>, val: Valuation, node: Node)
    requires StageCovered(w, visited, val) && Referenced(w.snapshot.rows, node.entity)
    requires var rewrite := RewriteOf(w.snapshot.schema, node.entity.namespace, node.relation);
             rewrite.Some? && FromRelation(val, node, rewrite.value)
    ensures Covered(w, visited, node)
  {
    hide Referenced, Includes, Live;
    var schema, namespace := w.snapshot.schema, node.entity.namespace;
    var used :| Edge(schema, namespace, node.relation, used) && val(Node(node.entity, used));
    if Walked(w, visited, Node(node.entity, used)) {
      var relation :| Userset(node.entity, relation) in visited && Includes(schema, namespace, used, relation);
      IncludesThroughEdge(schema, namespace, node.relation, used, relation);
    } else {
      var row: Relationship, computed :|
        && Live(w.snapshot.rows, row) && row.subject.UsersetSubject? && row.resource == node.entity
        && TupleBelow(schema, namespace, used, row.relation, computed) && Walked(w, visited, Node(row.subject.entity, computed));
      var below :| Includes(schema, namespace, used, below) && TupleIn(schema, namespace, below, row.relation, computed);
      IncludesThroughEdge(schema, namespace, node.relation, used, below);
      assert TupleBelow(schema, namespace, node.relation, row.relation, computed);
    }
  }

  lemma CoveredThroughTuple(w: Walk, visited: set<User>, seen: set<Object>, val: Valuation, node: Node)
    requires TupleRowsAreFound(w) && StageCovered(w, visited, val)
    requires var rewrite := RewriteOf(w.snapshot.schema, node.entity.namespace, node.relation);
             rewrite.Some? && FromTuple(w.snapshot, val, node, rewrite.value)
    ensures Covered(w, visited, node)
  {
    hide TupleRowsAreFound, StageCovered, Includes, Walked;
    var schema, namespace := w.snapshot.schema, node.entity.namespace;
    var row: Relationship, computed :|
      && TupleIn(schema, namespace, node.relation, row.relation, computed) && row in RowsOn(w.snapshot.rows, node.entity, row.relation)
      && row.subject.UsersetSubject? && val(Node(row.subject.entity, computed));
    RowsOnAreLive(w.snapshot.rows, node.entity, row.relation);
    assert TakesOver(schema, row, computed);
    TakenOverIsWalked(w, visited, seen, val, row, computed);
    IncludesItself(schema, namespace, node.relation);
    assert TupleBelow(schema, namespace, node.relation, row.relation, computed);
  }

  /** At every stage, what is true on a referenced object is covered by the closed walk. */
  lemma {:induction false} EveryStageIsCovered(w: Walk, visited: set<User>, seen: set<Object>, n: nat)
    requires WellFormed(w.snapshot.schema) && Closed(w, visited, seen)
    requires TupleRowsAreFound(w) && PostsLive(w.snapshot.rows, w.posted) && PrunesLeavesOnly(w)
    ensures StageCovered(w, visited, Iterate(w.snapshot, w.request.subject, {}, n))
  {
    hide WellFormed, Closed, TupleRowsAreFound, PostsLive, PrunesLeavesOnly, Referenced, Covered, BodyHolds;
    if n > 0 {
      EveryStageIsCovered(w, visited, seen, n - 1);
      var val := Iterate(w.snapshot, w.request.subject, {}, n - 1);
      StageIsDefined(w.snapshot, w.request.subject, n - 1);
      forall node | Iterate(w.snapshot, w.request.subject, {}, n)(node) && Referenced(w.snapshot.rows, node.entity)
        ensures Covered(w, visited, node)
      {
        BodyHasOrigin(w.snapshot, w.request.subject, val, node);
        BodyIsCovered(w, visited, seen, val, node);
      }
    }
  }

  lemma BodyIsCovered(w: Walk, visited: set<User>, seen: set<Object>, val: Valuation, node: Node)
    requires Closed(w, visited, seen) && TupleRowsAreFound(w) && PostsLive(w.snapshot.rows, w.posted) && PrunesLeavesOnly(w)
    requires StageCovered(w, visited, val) && Defined(w.snapshot.schema, val) && Referenced(w.snapshot.rows, node.entity)
    requires var rewrite := RewriteOf(w.snapshot.schema, node.entity.namespace, node.relation);
             HasOrigin(w.snapshot, w.request.subject, val, node, if rewrite.Some? then rewrite.value else This)
    ensures Covered(w, visited, node)
  {
    hide Closed, TupleRowsAreFound, PostsLive, PrunesLeavesOnly, StageCovered, Defined, Referenced, Covered, FromRow;
    if FromRow(w.snapshot, w.request.subject, val, node) {
      CoveredThroughRow(w, visited, seen, val, node);
    } else {
      var rewrite := RewriteOf(w.snapshot.schema, node.entity.namespace, node.relation);
      if rewrite.Some? {
        if FromRelation(val, node, rewrite.value) {
          CoveredThroughRelation(w, visited, val, node);
        } else {
          CoveredThroughTuple(w, visited, seen, val, node);
        }
      }
    }
  }

  // ---------------------------------------------------------------- every member of the type is seen

  /** A contributing row of the requested type that is not prunable puts its resource among the seen. */
  lemma ContributingRowIsSeen(w: Walk, visited: set<User>, seen: set<Object>, val: Valuation, row: Relationship)
    requires WellFormed(w.snapshot.schema) && Closed(w, visited, seen) && TupleRowsAreFound(w) && PostsLive(w.snapshot.rows, w.posted)
    requires StageCovered(w, visited, val) && Defined(w.snapshot.schema, val)
    requires Live(w.snapshot.rows, row) && w.OfRequestedType(row.resource) && !w.Prunable(row)
    requires Contributes(w.snapshot, w.request.subject, val, row)
    ensures row.resource in seen
  {
    hide Closed, TupleRowsAreFound, PostsLive, StageCovered, Defined, MatchesSubject, TakesOver;
    if Gives(w.request.subject, val, row) {
      GivingRowIsFollowed(w, visited, seen, val, row);
    } else {
      var computed :| TakesOver(w.snapshot.schema, row, computed) && val(Node(row.subject.entity, computed));
      TakenOverRowIsSeen(w, visited, seen, val, row, computed);
    }
  }

  lemma TakenOverRowIsSeen(w: Walk, visited: set<User>, seen: set<Object>, val: Valuation, row: Relationship, computed: string)
    requires WellFormed(w.snapshot.schema) && Closed(w, visited, seen) && TupleRowsAreFound(w) && PostsLive(w.snapshot.rows, w.posted)
    requires StageCovered(w, visited, val) && Defined(w.snapshot.schema, val)
    requires Live(w.snapshot.rows, row) && w.OfRequestedType(row.resource) && !w.Prunable(row)
    requires row.subject.UsersetSubject? && TakesOver(w.snapshot.schema, row, computed) && val(Node(row.subject.entity, computed))
    ensures row.resource in seen
  {
    hide WellFormed, PostsLive, Expanded, StageCovered, Includes, TupleFree, Live, Referenced, Defined;
    var schema, entity := w.snapshot.schema, row.subject.entity;
    if w.posted(FilterOf(Userset(entity, computed))) {
      assert row.subject.relation == computed;
      GivingRowIsFollowed(w, visited, seen, val, row);
    } else {
      TakenOverIsWalked(w, visited, seen, val, row, computed);
      var relation :| Userset(entity, relation) in visited && Includes(schema, entity.namespace, computed, relation);
      var owner :| TupleIn(schema, row.resource.namespace, owner, row.relation, computed);
      var t := TupleTarget(row.resource.namespace, row.relation, computed, owner);
      IncludesItself(schema, row.resource.namespace, owner);
      assert Followed(w, Userset(entity, relation), visited, seen);
      assert TupleEdge(schema, entity.namespace, relation, t) && w.Broad(t, entity);
      assert TargetFollowed(w, row, t, visited, seen);
    }
  }

  lemma MembersAreCovered(w: Walk, visited: set<User>, seen: set<Object>)
    requires WellFormed(w.snapshot.schema) && Closed(w, visited, seen)
    requires TupleRowsAreFound(w) && PostsLive(w.snapshot.rows, w.posted) && PrunesLeavesOnly(w)
    ensures StageCovered(w, visited, Member(w.snapshot, w.request.subject))
    ensures Defined(w.snapshot.schema, Member(w.snapshot, w.request.subject))
  {
    hide WellFormed, Closed, TupleRowsAreFound, PostsLive, PrunesLeavesOnly, Covered, Iterate, Referenced;
    var member := Member(w.snapshot, w.request.subject);
    forall node | member(node)
      ensures Referenced(w.snapshot.rows, node.entity) ==> Covered(w, visited, node)
      ensures w.snapshot.schema.resolver.Relation(node.entity.namespace, node.relation).Ok?
    {
      var from: nat :| Settled(w.snapshot, w.request.subject, node, from);
      assert Iterate(w.snapshot, w.request.subject, {}, from)(node);
      EveryStageIsCovered(w, visited, seen, from);
      StageIsDefined(w.snapshot, w.request.subject, from);
    }
  }

  /** With a plan, a member's row is found on one of the planned relations. */
  lemma PlannedMemberIsSeen(w: Walk, visited: set<User>, seen: set<Object>, entity: Object)
    requires WellFormed(w.snapshot.schema) && Regular(w.snapshot) && Closed(w, visited, seen)
    requires TupleRowsAreFound(w) && PostsLive(w.snapshot.rows, w.posted) && PrunesLeavesOnly(w)
    requires Planned(w) && w.plan.Some?
    requires w.OfRequestedType(entity) && w.Holds(entity)
    ensures entity in seen
  {
    hide WellFormed, Regular, Closed, TupleRowsAreFound, PostsLive, PrunesLeavesOnly, StageCovered, Defined, Contributes, Member, LookupProducerPlan, Passes;
    var user, member, rules := w.request.subject, Member(w.snapshot, w.request.subject), w.plan.value.rules;
    MembersAreCovered(w, visited, seen);
    MemberSolves(w.snapshot, user);
    LookupPlanIsCorrect(w.snapshot, user, member, entity, w.request.permission);
    var i :| 0 <= i < |rules| && Possible(w.snapshot, user, member, entity, rules[i]);
    var row :| row in RowsOn(w.snapshot.rows, entity, rules[i].relation) && Contributes(w.snapshot, user, member, row);
    RowsOnAreLive(w.snapshot.rows, entity, rules[i].relation);
    ContributingRowIsSeen(w, visited, seen, member, row);
  }

  /** Without a plan every row of the requested type is considered, so any origin will do. */
  lemma {:induction false} UnplannedStageIsSeen(w: Walk, visited: set<User>, seen: set<Object>, n: nat, node: Node)
    requires WellFormed(w.snapshot.schema) && Closed(w, visited, seen)
    requires TupleRowsAreFound(w) && PostsLive(w.snapshot.rows, w.posted) && PrunesLeavesOnly(w)
    requires w.plan.None? && w.OfRequestedType(node.entity)
    requires Iterate(w.snapshot, w.request.subject, {}, n)(node)
    ensures node.entity in seen
    decreases n
  {
    hide WellFormed, Closed, TupleRowsAreFound, PostsLive, PrunesLeavesOnly, StageCovered, Defined, BodyHolds, MatchesSubject;
    var user, val := w.request.subject, Iterate(w.snapshot, w.request.subject, {}, n - 1);
    EveryStageIsCovered(w, visited, seen, n - 1);
    StageIsDefined(w.snapshot, user, n - 1);
    BodyHasOrigin(w.snapshot, user, val, node);
    var rewrite := RewriteOf(w.snapshot.schema, node.entity.namespace, node.relation);
    if FromRow(w.snapshot, user, val, node) {
      var row :| row in RowsOn(w.snapshot.rows, node.entity, node.relation) && Gives(user, val, row);
      RowsOnAreLive(w.snapshot.rows, node.entity, node.relation);
      ContributingRowIsSeen(w, visited, seen, val, row);
    } else if rewrite.Some? {
      if FromRelation(val, node, rewrite.value) {
        var used :| Uses(rewrite.value, used) && val(Node(node.entity, used));
        UnplannedStageIsSeen(w, visited, seen, n - 1, Node(node.entity, used));
      } else {
        var row: Relationship, computed :|
          && TupleIn(w.snapshot.schema, node.entity.namespace, node.relation, row.relation, computed)
          && row in RowsOn(w.snapshot.rows, node.entity, row.relation)
          && row.subject.UsersetSubject? && val(Node(row.subject.entity, computed));
        RowsOnAreLive(w.snapshot.rows, node.entity, row.relation);
        assert TakesOver(w.snapshot.schema, row, computed);
        ContributingRowIsSeen(w, visited, seen, val, row);
      }
    }
  }

  /** A closed walk has seen every member of the requested type. */
  lemma ClosedWalkSeesEveryMember(w: Walk, visited: set<User>, seen: set<Object>, entity: Object)
    requires WellFormed(w.snapshot.schema) && Regular(w.snapshot) && Closed(w, visited, seen)
    requires Planned(w) && Exhaustive(w)
    requires w.OfRequestedType(entity) && w.Holds(entity)
    ensures entity in seen
  {
    hide WellFormed, Regular, Closed, TupleRowsAreFound, PostsLive, PrunesLeavesOnly, Iterate;
    if w.plan.Some? {
      PlannedMemberIsSeen(w, visited, seen, entity);
    } else {
      var node := Node(entity, w.request.permission);
      var from: nat :| Settled(w.snapshot, w.request.subject, node, from);
      UnplannedStageIsSeen(w, visited, seen, from, node);
    }
  }
}
