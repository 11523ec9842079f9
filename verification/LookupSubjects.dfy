/** The walk behind a subject lookup, as it updates its collector and its two evaluation contexts. */
module LookupSubjects {
  import opened Vocabulary
  import opened Domain
  import opened Schema
  import opened Semantics
  import opened MembershipAlgebra
  import opened CheckSpec
  import opened CheckCorrect
  import opened ActiveStack
  import opened Evaluator
  import opened MemoCorrect
  import opened SubjectExploration

  type Step = Result<(), EvaluationError>

  class SubjectLookup {
    const snapshot: Snapshot
    const limits: EvaluationLimits
    const root: Node
    const subjectType: string
    const expandContext: EvaluationContext
    const checkContext: EvaluationContext
    var seenSubjects: set<User>
    var seenUsersets: set<Node>
    var subjects: seq<User>
    /** The usersets whose exploration has finished. */
    ghost var done: set<Node>

    ghost predicate Valid()
      reads this, expandContext, expandContext.checks, expandContext.expands, checkContext, checkContext.checks, checkContext.expands
    {
      && expandContext != checkContext
      && (expandContext.checks as object) != checkContext.checks && (expandContext.checks as object) != checkContext.expands
      && (expandContext.expands as object) != checkContext.checks && (expandContext.expands as object) != checkContext.expands
      && expandContext.Valid() && checkContext.Valid() && checkContext.memo.None?
      && checkContext.snapshot == snapshot && checkContext.limits == limits
      && Distinct(subjects)
      && (forall s :: s in subjects ==> s in seenSubjects)
      && (forall s :: s in seenSubjects ==> OfType(s, subjectType))
      && |subjects| <= limits.maxLookupResults
    }

    constructor (snapshot: Snapshot, limits: EvaluationLimits, root: Node, subjectType: string)
      ensures Valid() && Sound() && Explored({root})
      ensures this.snapshot == snapshot && this.limits == limits && this.root == root && this.subjectType == subjectType
      ensures expandContext.expands.stack == []
      ensures fresh(expandContext) && fresh(expandContext.checks) && fresh(expandContext.expands)
      ensures fresh(checkContext) && fresh(checkContext.checks) && fresh(checkContext.expands)
    {
      this.snapshot, this.limits, this.root, this.subjectType := snapshot, limits, root, subjectType;
      expandContext := new EvaluationContext(snapshot, limits);
      checkContext := new EvaluationContext(snapshot, limits);
      seenSubjects, seenUsersets, subjects, done := {}, {}, [], {};
    }

    ghost predicate IsAssured() { Assured(snapshot, limits, subjectType) }

    ghost predicate Holds(user: User) { Member(snapshot, user)(root) }

    predicate LimitReached()
      reads this
    {
      |subjects| >= limits.maxLookupResults
    }

    /** Exactly the members among the candidates seen so far have been returned. */
    ghost predicate Sound()
      reads this
    {
      IsAssured() ==> forall s :: s in seenSubjects ==> (s in subjects <==> Holds(s))
    }

    ghost function Reached(): set<Node>
      reads this, expandContext.expands
    {
      done + set node | node in expandContext.expands.stack
    }

    /** Unless the result is full: finished usersets lead only to finished or active ones, and so
        does every userset marked seen, but for `pending`. */
    ghost predicate Explored(pending: set<Node>)
      reads this, expandContext.expands
    {
      Complete() ==>
        && AllExplored(snapshot, subjectType, done, Reached(), seenSubjects)
        && seenUsersets <= Reached() + pending
    }

    ghost predicate Complete()
      reads this
    {
      IsAssured() && !LimitReached()
    }

    /** The walk's own stack and depth are as they were, and nothing collected is lost. */
    twostate predicate Kept()
      reads this, expandContext, expandContext.checks, expandContext.expands, checkContext, checkContext.checks, checkContext.expands
    {
      && Valid()
      && expandContext.expands.stack == old(expandContext.expands.stack)
      && expandContext.remainingDepth == old(expandContext.remainingDepth)
      && old(done) <= done
      && old(seenSubjects) <= seenSubjects
      && |old(subjects)| <= |subjects|
    }

    method VerifyCandidate(candidate: User) returns (r: Result<bool, EvaluationError>)
      requires Valid() && OfType(candidate, subjectType)
      modifies checkContext, checkContext.checks, checkContext.expands
      ensures Valid()
      ensures r.Ok? && IsAssured() ==> r.value == Holds(candidate)
    {
      hide Member, Regular, Untruncated;
      checkContext.ResetForReuse();
      var outcome := checkContext.Check(root.entity, root.relation, candidate, Untrusted);
      if outcome.Err? {
        return Err(outcome.error);
      }
      if IsAssured() {
        CandidatesAreCheckedExactly(snapshot.rows, subjectType, candidate);
        CheckIsMembership(Request(snapshot, limits, candidate), root.entity, root.relation);
      }
      r := Ok(outcome.value == Allowed);
    }

    /** Handles one candidate subject of the requested type; it is decided once, on first sight. */
    method Collect(candidate: User, verify: bool) returns (r: Step)
      requires Valid() && Sound() && !LimitReached() && OfType(candidate, subjectType)
      requires IsAssured() && !verify ==> Holds(candidate)
      modifies this`seenSubjects, this`subjects, checkContext, checkContext.checks, checkContext.expands
      ensures Valid()
      ensures seenSubjects == old(seenSubjects) + {candidate}
      ensures |old(subjects)| <= |subjects|
      ensures r.Ok? ==> Sound()
    {
      hide Member, Assured;
      if candidate in seenSubjects {
        assert seenSubjects == seenSubjects + {candidate};
        return Ok(());
      }
      seenSubjects := seenSubjects + {candidate};
      var allowed := true;
      if verify {
        var verified := VerifyCandidate(candidate);
        if verified.Err? {
          return Err(verified.error);
        }
        allowed := verified.value;
      }
      if allowed {
        subjects := subjects + [candidate];
      }
      r := Ok(());
    }

    method CollectUser(id: string, verify: bool) returns (r: Step)
      requires Valid() && Sound() && !LimitReached()
      requires IsAssured() && !verify ==> Holds(UserId(id))
      modifies this`seenSubjects, this`subjects, checkContext, checkContext.checks, checkContext.expands
      ensures Valid()
      ensures old(seenSubjects) <= seenSubjects && |old(subjects)| <= |subjects|
      ensures subjectType == USER_TYPE ==> UserId(id) in seenSubjects
      ensures r.Ok? ==> Sound()
    {
      hide Member, Assured;
      if subjectType != USER_TYPE {
        return Ok(());
      }
      r := Collect(UserId(id), verify);
    }

    /** Handles a userset subject: a candidate if it is of the requested type, and an edge to follow
        unless it was seen before. */
    method CollectUserset(node: Node, verify: bool) returns (r: Result<bool, EvaluationError>)
      requires Valid() && Sound() && !LimitReached()
      requires IsAssured() && !verify ==> Holds(Userset(node.entity, node.relation))
      modifies this`seenSubjects, this`seenUsersets, this`subjects, checkContext, checkContext.checks, checkContext.expands
      ensures Valid()
      ensures old(seenSubjects) <= seenSubjects && |old(subjects)| <= |subjects|
      ensures node.entity.namespace == subjectType ==> Userset(node.entity, node.relation) in seenSubjects
      ensures seenUsersets <= old(seenUsersets) + {node}
      ensures r.Ok? ==> Sound()
      ensures r == Ok(false) ==> LimitReached() || (node in old(seenUsersets) && seenUsersets == old(seenUsersets))
    {
      hide Member, Assured;
      if node.entity.namespace == subjectType {
        var candidate := Userset(node.entity, node.relation);
        var firstSight := candidate !in seenSubjects;
        var collected := Collect(candidate, verify);
        if collected.Err? {
          return Err(collected.error);
        }
        if firstSight && !verify {
          return Ok(!LimitReached());
        }
        if LimitReached() {
          return Ok(false);
        }
      }
      var unseen := node !in seenUsersets;
      seenUsersets := seenUsersets + {node};
      r := Ok(unseen);
    }

    /** Walks one userset, unless the result is full or the userset is already being walked. */
    method StreamRelation(node: Node, inheritedVerify: bool) returns (r: Step)
      requires Valid() && Sound() && Explored({node})
      requires IsAssured() && !inheritedVerify ==> Feeds(snapshot, root, node)
      modifies this, expandContext, expandContext.expands, checkContext, checkContext.checks, checkContext.expands
      ensures Kept()
      ensures r.Ok? ==> Sound() && Explored({}) && (Complete() ==> node in Reached())
      decreases expandContext.remainingDepth, 0
    {
      hide Member, Assured, AllExplored, Feeds;
      if LimitReached() {
        return Ok(());
      }
      if expandContext.expands.IsActive(node) {
        return Ok(());
      }
      if expandContext.remainingDepth == 0 {
        return Err(ExpandDepthExceeded(node));
      }
      EnterUserset(node);
      r := StreamRelationEntered(node, inheritedVerify);
      LeaveUserset(node, r.Ok?);
    }

    method EnterUserset(node: Node)
      requires Valid() && Explored({node}) && expandContext.remainingDepth > 0 && node !in expandContext.expands.stack
      modifies expandContext, expandContext.expands
      ensures Valid() && Explored({})
      ensures expandContext.expands.stack == old(expandContext.expands.stack) + [node]
      ensures expandContext.remainingDepth == old(expandContext.remainingDepth) - 1
    {
      hide Assured, AllExplored;
      ghost var before := Reached();
      expandContext.EnterExpand(node);
      assert Reached() == before + {node};
      if Complete() {
        AllExploredGrows(snapshot, subjectType, done, before, seenSubjects, Reached(), seenSubjects);
      }
    }

    method LeaveUserset(node: Node, ghost finished: bool)
      requires Valid() && expandContext.expands.stack != [] && expandContext.expands.stack[|expandContext.expands.stack| - 1] == node
      requires finished ==> Explored({}) && (Complete() ==> NodeExplored(snapshot, subjectType, node, Reached(), seenSubjects))
      modifies this`done, expandContext, expandContext.expands
      ensures Valid()
      ensures expandContext.expands.stack == old(expandContext.expands.stack)[..|old(expandContext.expands.stack)| - 1]
      ensures expandContext.remainingDepth == old(expandContext.remainingDepth) + 1
      ensures done == if finished then old(done) + {node} else old(done)
      ensures finished ==> Explored({}) && node in Reached()
    {
      hide Assured, NodeExplored;
      ghost var stack := expandContext.expands.stack;
      expandContext.LeaveExpand();
      assert stack == expandContext.expands.stack + [node];
      if finished {
        done := done + {node};
        assert Reached() == old(Reached());
      }
    }

    method StreamRelationEntered(node: Node, inheritedVerify: bool) returns (r: Step)
      requires Valid() && Sound() && Explored({})
      requires IsAssured() && !inheritedVerify ==> Feeds(snapshot, root, node)
      modifies this, expandContext, expandContext.expands, checkContext, checkContext.checks, checkContext.expands
      ensures Kept()
      ensures r.Ok? ==> Sound() && Explored({}) && (Complete() ==> NodeExplored(snapshot, subjectType, node, Reached(), seenSubjects))
      decreases expandContext.remainingDepth, 4
    {
      hide Member, AllExplored, Feeds, WellFormed, Regular, TypeFits, Untruncated, ThisExplored;
      if !ValidTypeName(node.entity.namespace) {
        return Err(InvalidIdentifier);
      }
      var found := snapshot.schema.resolver.Relation(node.entity.namespace, node.relation);
      if found.Err? {
        return Err(SchemaFailure(found.error));
      }
      var verify := inheritedVerify;
      if !verify {
        var required :- DefinitionRequiresVerification(snapshot.schema, found.value);
        verify := required;
      }
      if IsAssured() {
        FoundIsLinked(snapshot.schema, node.entity.namespace, node.relation);
        if !verify {
          FeedsThroughDefinition(snapshot, root, node);
        }
      }
      match found.value.compiledRewrite
      case Some(e) => r := StreamExpression(node, e, verify);
      case None => r := StreamThis(node, verify);
    }

    /** Walks one rewrite of `node`. */
    method StreamExpression(node: Node, e: CompiledExpression, verify: bool) returns (r: Step)
      requires Valid() && Sound() && Explored({})
      requires IsAssured() ==> Linked(snapshot.schema, node.entity.namespace, e)
      requires IsAssured() && !verify ==> ExprFeeds(snapshot, root, node, e) && RequiresVerification(snapshot.schema, e, {}) == Ok(false)
      modifies this, expandContext, expandContext.expands, checkContext, checkContext.checks, checkContext.expands
      ensures Kept()
      ensures r.Ok? ==> Sound() && Explored({}) && (Complete() ==> ExprExplored(snapshot, subjectType, node, e, Reached(), seenSubjects))
      decreases expandContext.remainingDepth, 3, e, 1
    {
      hide Member, AllExplored, Assured, Feeds, ThisExplored, TupleExplored, ExprFeeds;
      if LimitReached() {
        return Ok(());
      }
      match e
      case This => r := StreamThis(node, verify);
      case ComputedUserset(relation, _, _) =>
        if IsAssured() && !verify {
          ComputedFeedsTarget(snapshot, root, node, e);
        }
        r := StreamRelation(Node(node.entity, relation), verify);
      case TupleToUserset(_, id, computed) => r := StreamTuple(node, id, computed);
      case Union(children) => r := StreamOperands(node, e, children, verify);
      case Intersection(children) => r := StreamOperands(node, e, children, verify);
      case Exclusion(base, _) => r := StreamExpression(node, base, true);
    }

    method StreamOperands(node: Node, ghost e: CompiledExpression, children: seq<CompiledExpression>, verify: bool) returns (r: Step)
      requires e == Union(children) || e == Intersection(children)
      requires Valid() && Sound() && Explored({})
      requires IsAssured() ==> Linked(snapshot.schema, node.entity.namespace, e)
      requires IsAssured() && !verify ==> ExprFeeds(snapshot, root, node, e) && RequiresVerification(snapshot.schema, e, {}) == Ok(false)
      modifies this, expandContext, expandContext.expands, checkContext, checkContext.checks, checkContext.expands
      ensures Kept()
      ensures r.Ok? ==> Sound() && Explored({}) && (Complete() ==> ExprExplored(snapshot, subjectType, node, e, Reached(), seenSubjects))
      decreases expandContext.remainingDepth, 3, e, 0
    {
      hide Member, AllExplored, Assured, ThisExplored, TupleExplored, ExprFeeds;
      for i := 0 to |children|
        invariant Kept() && Sound() && Explored({})
        invariant Complete() ==> forall k :: 0 <= k < i ==> ExprExplored(snapshot, subjectType, node, children[k], Reached(), seenSubjects)
      {
        if IsAssured() && !verify {
          NoneRequires(snapshot.schema, children, i);
          UnionFeedsOperands(snapshot, root, node, children, i);
        }
        ghost var reached, seen := Reached(), seenSubjects;
        r := StreamExpression(node, children[i], verify);
        if r.Err? {
          return;
        }
        if LimitReached() {
          return Ok(());
        }
        if Complete() {
          forall k | 0 <= k < i {
            ExploredGrows(snapshot, subjectType, node, children[k], reached, seen, Reached(), seenSubjects);
          }
        }
      }
      r := Ok(());
    }

    /** Follows the tupleset's userset rows to the computed relation; candidates found that way are
        always verified. */
    method StreamTuple(node: Node, id: RelationId, computed: string) returns (r: Step)
      requires Valid() && Sound() && Explored({})
      modifies this, expandContext, expandContext.expands, checkContext, checkContext.checks, checkContext.expands
      ensures Kept()
      ensures r.Ok? ==>
        && Sound() && Explored({})
        && (Complete() ==> TupleExplored(snapshot.rows, node.entity, NameOf(snapshot.schema, id), computed, Reached()))
      decreases expandContext.remainingDepth, 2
    {
      hide Member, AllExplored, Assured, Feeds;
      if !ValidObject(node.entity) {
        return Err(InvalidIdentifier);
      }
      var definition := snapshot.schema.resolver.ById(id);
      if definition.None? {
        return Err(UnresolvedRelationId);
      }
      var rows := ResourceRelation(snapshot.rows, node.entity, definition.value.name, Unbounded);
      var fanout := 0;
      for i := 0 to |rows|
        invariant Kept() && Sound() && Explored({})
        invariant Complete() ==> forall k :: 0 <= k < i && rows[k].subject.UsersetSubject? ==> Node(rows[k].subject.entity, computed) in Reached()
      {
        if LimitReached() {
          return Ok(());
        }
        if rows[i].subject.UsersetSubject? {
          fanout := fanout + 1;
          if fanout > limits.maxFanoutPerStep {
            return Err(FanoutExceeded(limits.maxFanoutPerStep));
          }
          var outcome := StreamRelation(Node(rows[i].subject.entity, computed), true);
          if outcome.Err? {
            return outcome;
          }
        }
      }
      r := Ok(());
    }

    /** Walks the rows stored on `node` itself, no more of them than the fanout limit allows. */
    method StreamThis(node: Node, verify: bool) returns (r: Step)
      requires Valid() && Sound() && Explored({})
      requires IsAssured() && !verify ==> ExprFeeds(snapshot, root, node, This)
      modifies this, expandContext, expandContext.expands, checkContext, checkContext.checks, checkContext.expands
      ensures Kept()
      ensures r.Ok? ==> Sound() && Explored({}) && (Complete() ==> ThisExplored(snapshot.rows, subjectType, node, Reached(), seenSubjects))
      decreases expandContext.remainingDepth, 2
    {
      hide Member, AllExplored, ExprFeeds, Assured, RowExplored, ResourceRelation, RowsOn;
      if !ValidObject(node.entity) {
        return Err(InvalidIdentifier);
      }
      var rows := ResourceRelation(snapshot.rows, node.entity, node.relation, FanoutQueryLimit(limits));
      LimitedRowsMatch(snapshot.rows, limits, node);
      var fanout := 0;
      for i := 0 to |rows|
        invariant Kept() && Sound() && Explored({})
        invariant fanout == i <= limits.maxFanoutPerStep
        invariant Complete() ==> RowsExplored(subjectType, rows[..i], Reached(), seenSubjects)
      {
        if LimitReached() {
          return Ok(());
        }
        fanout := fanout + 1;
        if fanout > limits.maxFanoutPerStep {
          return Err(FanoutExceeded(limits.maxFanoutPerStep));
        }
        ghost var reached, seen := Reached(), seenSubjects;
        var outcome := StreamRow(node, rows[i], verify);
        if outcome.Err? {
          return outcome;
        }
        if Complete() {
          RowsExploredExtend(subjectType, rows[..i], rows[i], reached, seen, Reached(), seenSubjects);
        }
        assert rows[..i + 1] == rows[..i] + [rows[i]];
      }
      assert rows[..|rows|] == rows;
      if IsAssured() {
        WithinLimitIsComplete(snapshot, limits, subjectType, node);
      }
      r := Ok(());
    }

    method StreamRow(node: Node, row: Relationship, verify: bool) returns (r: Step)
      requires Valid() && Sound() && Explored({}) && !LimitReached()
      requires row in RowsOn(snapshot.rows, node.entity, node.relation)
      requires IsAssured() && !verify ==> ExprFeeds(snapshot, root, node, This)
      modifies this, expandContext, expandContext.expands, checkContext, checkContext.checks, checkContext.expands
      ensures Kept()
      ensures r.Ok? ==> Sound() && Explored({}) && (Complete() ==> RowExplored(subjectType, row, Reached(), seenSubjects))
      decreases expandContext.remainingDepth, 1
    {
      hide Member, AllExplored, ExprFeeds, Assured, RowsOn, Feeds;
      if row.subject.UsersetSubject? {
        var nested := Node(row.subject.entity, row.subject.relation);
        if IsAssured() && !verify {
          RowFeedsCandidate(snapshot, root, node, row);
          RowFeedsUserset(snapshot, root, node, row);
        }
        ghost var seen := seenSubjects;
        var follow :- CollectUserset(nested, verify);
        if Complete() {
          AllExploredGrows(snapshot, subjectType, done, Reached(), seen, Reached(), seenSubjects);
        }
        if follow {
          r := StreamRelation(nested, verify);
          return;
        }
        return Ok(());
      }
      if row.subject.entity.namespace != USER_TYPE {
        return Err(UnrepresentableSubject);
      }
      if IsAssured() && !verify {
        RowFeedsCandidate(snapshot, root, node, row);
      }
      ghost var seen := seenSubjects;
      r := CollectUser(row.subject.entity.id, verify);
      if Complete() {
        AllExploredGrows(snapshot, subjectType, done, Reached(), seen, Reached(), seenSubjects);
      }
    }
  }

  /** Who of type `subjectType` holds `permission` on `resource`. Whatever the data, the answer has no
      duplicates, respects the cap and names subjects of the requested type only. When the answer can
      be exact, everyone in it is a member; below the cap it is exactly the members. */
  method Lookup(snapshot: Snapshot, resource: Object, permission: string, subjectType: string, limits: EvaluationLimits)
    returns (r: Result<seq<User>, EvaluationError>)
    ensures r.Ok? ==> Distinct(r.value) && |r.value| <= limits.maxLookupResults
    ensures r.Ok? ==> forall s :: s in r.value ==> OfType(s, subjectType)
    ensures r.Ok? && Assured(snapshot, limits, subjectType) ==> forall s :: s in r.value ==> Member(snapshot, s)(Node(resource, permission))
    ensures r.Ok? && Assured(snapshot, limits, subjectType) && |r.value| < limits.maxLookupResults ==>
      forall s :: OfType(s, subjectType) && Member(snapshot, s)(Node(resource, permission)) ==> s in r.value
  {
    hide Member, Regular, Untruncated, AllExplored, WellFormed, TypeFits;
    if !ValidObject(resource) || !ValidTypeName(permission) {
      return Err(InvalidIdentifier);
    }
    var found := snapshot.schema.resolver.Relation(resource.namespace, permission);
    if found.Err? {
      return Err(SchemaFailure(found.error));
    }
    if !ValidTypeName(subjectType) {
      return Err(InvalidIdentifier);
    }
    if subjectType != USER_TYPE {
      var namespace := snapshot.schema.resolver.Namespace(subjectType);
      if namespace.Err? {
        return Err(SchemaFailure(namespace.error));
      }
    }
    var root := Node(resource, permission);
    var lookup := new SubjectLookup(snapshot, limits, root, subjectType);
    var outcome := lookup.StreamRelation(root, false);
    if outcome.Err? {
      return Err(outcome.error);
    }
    if lookup.Complete() {
      forall s | OfType(s, subjectType) && Member(snapshot, s)(root) ensures s in lookup.subjects {
        assert lookup.Reached() == lookup.done;
        MembersAreSeen(snapshot, subjectType, s, root, lookup.done, lookup.seenSubjects);
      }
    }
    r := Ok(lookup.subjects);
  }
}
