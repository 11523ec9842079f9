/** Which subjects hold a permission: a depth-first walk of the usersets behind it, collecting
    candidates and verifying those the walk alone does not prove. */
module SubjectExploration {
  import opened Vocabulary
  import opened Schema
  import opened Semantics
  import opened CheckSpec
  import opened CheckCorrect
  import opened Planner

  /** Whether candidates found under `e` must be checked: anything but unions of rows and of such
      relations, and any recursion, must. */
  function RequiresVerification(schema: CompiledSchema, e: CompiledExpression, visiting: set<RelationId>): Result<bool, EvaluationError>
    decreases |SchemaIds(schema) - visiting|, e
  {
    match e
    case This => Ok(false)
    case ComputedUserset(_, id, targetHasRewrite) =>
      if !targetHasRewrite then Ok(false)
      else if id in visiting then Ok(true)
      else
        (match schema.resolver.ById(id)
         case None => Err(UnresolvedRelationId)
         case Some(definition) =>
           match definition.compiledRewrite
           case None => Ok(false)
           case Some(target) =>
             assert id in SchemaIds(schema);
             assert SchemaIds(schema) - (visiting + {id}) == SchemaIds(schema) - visiting - {id};
             RequiresVerification(schema, target, visiting + {id}))
    case Union(children) => AnyRequiresVerification(schema, children, visiting)
    case _ => Ok(true)
  }

  function AnyRequiresVerification(schema: CompiledSchema, children: seq<CompiledExpression>, visiting: set<RelationId>): Result<bool, EvaluationError>
    decreases |SchemaIds(schema) - visiting|, children
  {
    if children == [] then Ok(false)
    else
      var first :- RequiresVerification(schema, children[0], visiting);
      if first then Ok(true) else AnyRequiresVerification(schema, children[1..], visiting)
  }

  function DefinitionRequiresVerification(schema: CompiledSchema, definition: RelationDefinition): Result<bool, EvaluationError> {
    match definition.compiledRewrite
    case Some(e) => RequiresVerification(schema, e, {})
    case None => Ok(false)
  }

  lemma {:induction false} NoneRequires(schema: CompiledSchema, children: seq<CompiledExpression>, i: nat)
    requires AnyRequiresVerification(schema, children, {}) == Ok(false)
    requires i < |children|
    ensures RequiresVerification(schema, children[i], {}) == Ok(false)
  {
    if i > 0 {
      NoneRequires(schema, children[1..], i - 1);
    }
  }

  // ---------------------------------------------------------------- what a finished walk has seen

  /** The subjects a lookup of type `subjectType` ranges over. */
  predicate OfType(user: User, subjectType: string) {
    match user
    case UserId(_) => subjectType == USER_TYPE
    case Userset(entity, _) => entity.namespace == subjectType
  }

  /** The subject a row offers as a candidate. */
  function CandidateOf(subject: SubjectRef): User {
    match subject
    case DirectSubject(entity) => UserId(entity.id)
    case UsersetSubject(entity, relation) => Userset(entity, relation)
  }

  /** A row has been followed if it names a userset, and collected if it offers a candidate. */
  ghost predicate RowExplored(subjectType: string, row: Relationship, reached: set<Node>, seen: set<User>) {
    && (row.subject.UsersetSubject? ==> Node(row.subject.entity, row.subject.relation) in reached)
    && (row.subject.DirectSubject? ==> row.subject.entity.namespace == USER_TYPE)
    && (OfType(CandidateOf(row.subject), subjectType) ==> CandidateOf(row.subject) in seen)
  }

  ghost predicate RowsExplored(subjectType: string, rows: seq<Relationship>, reached: set<Node>, seen: set<User>) {
    forall row :: row in rows ==> RowExplored(subjectType, row, reached, seen)
  }

  /** Everything stored on `node` has been followed or collected. */
  ghost predicate ThisExplored(rows: Rows, subjectType: string, node: Node, reached: set<Node>, seen: set<User>) {
    RowsExplored(subjectType, RowsOn(rows, node.entity, node.relation), reached, seen)
  }

  ghost predicate TupleExplored(rows: Rows, entity: Object, tupleset: string, computed: string, reached: set<Node>) {
    forall row :: row in RowsOn(rows, entity, tupleset) && row.subject.UsersetSubject? ==> Node(row.subject.entity, computed) in reached
  }

  /** Everything that can contribute to `e` at `node` has been followed or collected. */
  ghost predicate ExprExplored(snapshot: Snapshot, subjectType: string, node: Node, e: CompiledExpression, reached: set<Node>, seen: set<User>) {
    match e
    case This => ThisExplored(snapshot.rows, subjectType, node, reached, seen)
    case ComputedUserset(relation, _, _) => Node(node.entity, relation) in reached
    case TupleToUserset(_, id, computed) => TupleExplored(snapshot.rows, node.entity, NameOf(snapshot.schema, id), computed, reached)
    case Union(children) => forall i :: 0 <= i < |children| ==> ExprExplored(snapshot, subjectType, node, children[i], reached, seen)
    case Intersection(children) => forall i :: 0 <= i < |children| ==> ExprExplored(snapshot, subjectType, node, children[i], reached, seen)
    case Exclusion(base, _) => ExprExplored(snapshot, subjectType, node, base, reached, seen)
  }

  ghost predicate DefinitionExplored(snapshot: Snapshot, subjectType: string, node: Node, definition: RelationDefinition, reached: set<Node>, seen: set<User>) {
    match definition.compiledRewrite
    case Some(e) => ExprExplored(snapshot, subjectType, node, e, reached, seen)
    case None => ThisExplored(snapshot.rows, subjectType, node, reached, seen)
  }

  ghost predicate NodeExplored(snapshot: Snapshot, subjectType: string, node: Node, reached: set<Node>, seen: set<User>) {
    var found := snapshot.schema.resolver.Relation(node.entity.namespace, node.relation);
    found.Ok? && DefinitionExplored(snapshot, subjectType, node, found.value, reached, seen)
  }

  ghost predicate AllExplored(snapshot: Snapshot, subjectType: string, nodes: set<Node>, reached: set<Node>, seen: set<User>) {
    forall node :: node in nodes ==> NodeExplored(snapshot, subjectType, node, reached, seen)
  }

  lemma {:induction false} ExploredGrows(snapshot: Snapshot, subjectType: string, node: Node, e: CompiledExpression,
                                         reached: set<Node>, seen: set<User>, reached': set<Node>, seen': set<User>)
    requires reached <= reached' && seen <= seen'
    requires ExprExplored(snapshot, subjectType, node, e, reached, seen)
    ensures ExprExplored(snapshot, subjectType, node, e, reached', seen')
  {
    match e
    case Union(children) =>
      forall i | 0 <= i < |children| { ExploredGrows(snapshot, subjectType, node, children[i], reached, seen, reached', seen'); }
    case Intersection(children) =>
      forall i | 0 <= i < |children| { ExploredGrows(snapshot, subjectType, node, children[i], reached, seen, reached', seen'); }
    case Exclusion(base, _) => ExploredGrows(snapshot, subjectType, node, base, reached, seen, reached', seen');
    case _ =>
  }

  lemma RowsExploredExtend(subjectType: string, rows: seq<Relationship>, row: Relationship,
                           reached: set<Node>, seen: set<User>, reached': set<Node>, seen': set<User>)
    requires reached <= reached' && seen <= seen'
    requires RowsExplored(subjectType, rows, reached, seen) && RowExplored(subjectType, row, reached', seen')
    ensures RowsExplored(subjectType, rows + [row], reached', seen')
  {
  }

  lemma AllExploredGrows(snapshot: Snapshot, subjectType: string, nodes: set<Node>,
                         reached: set<Node>, seen: set<User>, reached': set<Node>, seen': set<User>)
    requires reached <= reached' && seen <= seen'
    requires AllExplored(snapshot, subjectType, nodes, reached, seen)
    ensures AllExplored(snapshot, subjectType, nodes, reached', seen')
  {
    forall node | node in nodes ensures NodeExplored(snapshot, subjectType, node, reached', seen') {
      var definition := snapshot.schema.resolver.Relation(node.entity.namespace, node.relation).value;
      if definition.compiledRewrite.Some? {
        ExploredGrows(snapshot, subjectType, node, definition.compiledRewrite.value, reached, seen, reached', seen');
      }
    }
  }

  // ---------------------------------------------------------------- a closed walk misses nobody

  /** The rows under which "is of type" and "matches the subject filter" mean the same. */
  ghost predicate TypeFits(rows: Rows, subjectType: string) {
    subjectType == USER_TYPE ==> NoUserUsersets(rows)
  }

  lemma DirectMembersAreSeen(snapshot: Snapshot, subjectType: string, user: User, node: Node, reached: set<Node>, seen: set<User>)
    requires TypeFits(snapshot.rows, subjectType) && OfType(user, subjectType)
    requires ThisExplored(snapshot.rows, subjectType, node, reached, seen)
    requires DirectMember(snapshot.rows, user, node)
    ensures user in seen
  {
    var row :| && Live(snapshot.rows, row) && row.resource == node.entity && row.relation == node.relation
               && MatchesSubject(row.subject, FilterOf(user));
    RowsOnAreLive(snapshot.rows, node.entity, node.relation);
    assert row in RowsOn(snapshot.rows, node.entity, node.relation);
    assert CandidateOf(row.subject) == user;
  }

  /** The reached usersets contain nobody unseen, at one stage of the iteration. */
  ghost predicate NobodyUnseen(val: Valuation, reached: set<Node>) {
    forall node :: node in reached ==> !val(node)
  }

  lemma {:induction false} UnseenFailsExpr(snapshot: Snapshot, subjectType: string, user: User, val: Valuation, node: Node, e: CompiledExpression,
                                           reached: set<Node>, seen: set<User>)
    requires TypeFits(snapshot.rows, subjectType) && OfType(user, subjectType) && user !in seen
    requires Linked(snapshot.schema, node.entity.namespace, e)
    requires ExprExplored(snapshot, subjectType, node, e, reached, seen)
    requires NobodyUnseen(val, reached)
    ensures !ExprHolds(snapshot, user, val, node, e)
  {
    match e
    case This =>
      if DirectMember(snapshot.rows, user, node) {
        DirectMembersAreSeen(snapshot, subjectType, user, node, reached, seen);
      }
    case ComputedUserset(_, _, _) =>
    case TupleToUserset(_, _, _) =>
    case Union(children) =>
      forall i | 0 <= i < |children| { UnseenFailsExpr(snapshot, subjectType, user, val, node, children[i], reached, seen); }
    case Intersection(children) => UnseenFailsExpr(snapshot, subjectType, user, val, node, children[0], reached, seen);
    case Exclusion(base, _) => UnseenFailsExpr(snapshot, subjectType, user, val, node, base, reached, seen);
  }

  /** If everything reached is explored within what is reached, a subject nobody saw is no member of
      anything reached, at any stage. */
  lemma {:induction false} ClosedWalkMissesNobody(snapshot: Snapshot, subjectType: string, user: User, n: nat, reached: set<Node>, seen: set<User>)
    requires WellFormed(snapshot.schema)
    requires TypeFits(snapshot.rows, subjectType) && OfType(user, subjectType) && user !in seen
    requires AllExplored(snapshot, subjectType, reached, reached, seen)
    ensures NobodyUnseen(Iterate(snapshot, user, {}, n), reached)
  {
    hide WellFormed, TypeFits, BodyHolds, NodeExplored;
    if n > 0 {
      ClosedWalkMissesNobody(snapshot, subjectType, user, n - 1, reached, seen);
      var before := Iterate(snapshot, user, {}, n - 1);
      forall node | node in reached ensures !Iterate(snapshot, user, {}, n)(node) {
        ExploredBodyFails(snapshot, subjectType, user, before, node, reached, seen);
      }
    }
  }

  lemma ExploredBodyFails(snapshot: Snapshot, subjectType: string, user: User, val: Valuation, node: Node, reached: set<Node>, seen: set<User>)
    requires WellFormed(snapshot.schema)
    requires TypeFits(snapshot.rows, subjectType) && OfType(user, subjectType) && user !in seen
    requires NodeExplored(snapshot, subjectType, node, reached, seen)
    requires NobodyUnseen(val, reached)
    ensures !BodyHolds(snapshot, user, val, node)
  {
    FoundIsLinked(snapshot.schema, node.entity.namespace, node.relation);
    var definition := snapshot.schema.resolver.Relation(node.entity.namespace, node.relation).value;
    UnseenFailsExpr(snapshot, subjectType, user, val, node,
                    if definition.compiledRewrite.Some? then definition.compiledRewrite.value else This, reached, seen);
  }

  lemma MembersAreSeen(snapshot: Snapshot, subjectType: string, user: User, node: Node, reached: set<Node>, seen: set<User>)
    requires WellFormed(snapshot.schema)
    requires TypeFits(snapshot.rows, subjectType) && OfType(user, subjectType)
    requires AllExplored(snapshot, subjectType, reached, reached, seen) && node in reached
    requires Member(snapshot, user)(node)
    ensures user in seen
  {
    var from: nat :| Settled(snapshot, user, node, from);
    if user !in seen {
      ClosedWalkMissesNobody(snapshot, subjectType, user, from, reached, seen);
    }
  }

  // ---------------------------------------------------------------- unverified candidates are members

  /** Every member of `node` is a member of `root`. */
  ghost predicate Feeds(snapshot: Snapshot, root: Node, node: Node) {
    forall user :: Member(snapshot, user)(node) ==> Member(snapshot, user)(root)
  }

  ghost predicate ExprFeeds(snapshot: Snapshot, root: Node, node: Node, e: CompiledExpression) {
    forall user :: ExprHolds(snapshot, user, Member(snapshot, user), node, e) ==> Member(snapshot, user)(root)
  }

  ghost predicate DefinitionFeeds(snapshot: Snapshot, root: Node, node: Node, definition: RelationDefinition) {
    ExprFeeds(snapshot, root, node, if definition.compiledRewrite.Some? then definition.compiledRewrite.value else This)
  }

  lemma FeedsThroughDefinition(snapshot: Snapshot, root: Node, node: Node)
    requires Regular(snapshot) && Feeds(snapshot, root, node)
    requires snapshot.schema.resolver.Relation(node.entity.namespace, node.relation).Ok?
    ensures DefinitionFeeds(snapshot, root, node, snapshot.schema.resolver.Relation(node.entity.namespace, node.relation).value)
  {
    hide Member, Regular;
    var definition := snapshot.schema.resolver.Relation(node.entity.namespace, node.relation).value;
    var e := if definition.compiledRewrite.Some? then definition.compiledRewrite.value else This;
    forall user | ExprHolds(snapshot, user, Member(snapshot, user), node, e) ensures Member(snapshot, user)(root) {
      MemberSolves(snapshot, user);
      assert BodyHolds(snapshot, user, Member(snapshot, user), node);
    }
  }

  lemma UnionFeedsOperands(snapshot: Snapshot, root: Node, node: Node, children: seq<CompiledExpression>, i: nat)
    requires i < |children| && ExprFeeds(snapshot, root, node, Union(children))
    ensures ExprFeeds(snapshot, root, node, children[i])
  {
    hide Member;
    forall user | ExprHolds(snapshot, user, Member(snapshot, user), node, children[i]) ensures Member(snapshot, user)(root) {
      assert ExprHolds(snapshot, user, Member(snapshot, user), node, Union(children));
    }
  }

  lemma ComputedFeedsTarget(snapshot: Snapshot, root: Node, node: Node, e: CompiledExpression)
    requires e.ComputedUserset? && Linked(snapshot.schema, node.entity.namespace, e)
    requires ExprFeeds(snapshot, root, node, e)
    ensures Feeds(snapshot, root, Node(node.entity, e.relation))
  {
    hide Member;
    forall user | Member(snapshot, user)(Node(node.entity, e.relation)) ensures Member(snapshot, user)(root) {
      assert ExprHolds(snapshot, user, Member(snapshot, user), node, e);
    }
  }

  lemma RowFeedsCandidate(snapshot: Snapshot, root: Node, node: Node, row: Relationship)
    requires ExprFeeds(snapshot, root, node, This)
    requires row in RowsOn(snapshot.rows, node.entity, node.relation)
    requires row.subject.DirectSubject? ==> row.subject.entity.namespace == USER_TYPE
    ensures Member(snapshot, CandidateOf(row.subject))(root)
  {
    hide Member;
    var user := CandidateOf(row.subject);
    RowsOnAreLive(snapshot.rows, node.entity, node.relation);
    assert MatchesSubject(row.subject, FilterOf(user));
    assert DirectMember(snapshot.rows, user, node);
    assert ExprHolds(snapshot, user, Member(snapshot, user), node, This);
  }

  lemma RowFeedsUserset(snapshot: Snapshot, root: Node, node: Node, row: Relationship)
    requires ExprFeeds(snapshot, root, node, This)
    requires row in RowsOn(snapshot.rows, node.entity, node.relation) && row.subject.UsersetSubject?
    ensures Feeds(snapshot, root, Node(row.subject.entity, row.subject.relation))
  {
    hide Member;
    forall user | Member(snapshot, user)(Node(row.subject.entity, row.subject.relation)) ensures Member(snapshot, user)(root) {
      assert ThroughUserset(snapshot.rows, Member(snapshot, user), node);
      assert ExprHolds(snapshot, user, Member(snapshot, user), node, This);
    }
  }

  lemma CandidatesAreCheckedExactly(rows: Rows, subjectType: string, user: User)
    requires TypeFits(rows, subjectType) && OfType(user, subjectType)
    ensures DirectExact(rows, user)
  {
    if user.UserId? {
      DirectExactForUsers(rows, user);
    } else {
      DirectExactForUsersets(rows, user);
    }
  }

  // ---------------------------------------------------------------- limited row queries

  function FanoutQueryLimit(limits: EvaluationLimits): QueryLimit { AtMost(limits.maxFanoutPerStep + 1) }

  /** A query within the fanout limit that does not report an excess has returned every live row. */
  ghost predicate Untruncated(rows: Rows, limits: EvaluationLimits) {
    forall entity, relation ::
      |ResourceRelation(rows, entity, relation, FanoutQueryLimit(limits))| <= limits.maxFanoutPerStep ==>
        ResourceRelation(rows, entity, relation, FanoutQueryLimit(limits)) == RowsOn(rows, entity, relation)
  }

  /** A query that stays within the fanout limit is complete exactly when nothing live lies beyond the
      limit in the checkpoint segment: tombstones use the limit up before they are removed. */
  lemma TruncatedExactly(rows: Rows, limits: EvaluationLimits, entity: Object, relation: string)
    requires |ResourceRelation(rows, entity, relation, FanoutQueryLimit(limits))| <= limits.maxFanoutPerStep
    ensures var stored := Select(rows.checkpoint, OnResourceRelation(entity, relation));
            ResourceRelation(rows, entity, relation, FanoutQueryLimit(limits)) == RowsOn(rows, entity, relation)
            <==> forall i :: limits.maxFanoutPerStep + 1 <= i < |stored| ==> stored[i] in rows.deleted
  {
    hide Select;
    var keep := OnResourceRelation(entity, relation);
    var alive := (relationship: Relationship) => relationship !in rows.deleted;
    var stored := Select(rows.checkpoint, keep);
    var limit := limits.maxFanoutPerStep + 1;
    var inserted := Select(rows.inserted, keep);
    assert Take(inserted, FanoutQueryLimit(limits)) == inserted;
    assert RowsOn(rows, entity, relation) == inserted + Select(stored, alive);
    assert ResourceRelation(rows, entity, relation, FanoutQueryLimit(limits)) == inserted + Select(Take(stored, AtMost(limit)), alive);
    if |stored| > limit {
      PrefixSelectsAll(stored, limit, alive);
    }
    SamePrefix(inserted, Select(Take(stored, AtMost(limit)), alive), Select(stored, alive));
  }

  lemma NoTombstonesNoTruncation(rows: Rows, limits: EvaluationLimits)
    requires rows.deleted == {}
    ensures Untruncated(rows, limits)
  {
    forall entity, relation | |ResourceRelation(rows, entity, relation, FanoutQueryLimit(limits))| <= limits.maxFanoutPerStep
      ensures ResourceRelation(rows, entity, relation, FanoutQueryLimit(limits)) == RowsOn(rows, entity, relation)
    {
      TruncatedExactly(rows, limits, entity, relation);
      var stored := Select(rows.checkpoint, OnResourceRelation(entity, relation));
      AllSelected(Take(stored, FanoutQueryLimit(limits)), relationship => relationship !in rows.deleted);
    }
  }

  /** Whatever the fanout limit, tombstones can use it up and lose a live row silently. */
  lemma TruncationCanLoseRows(limits: EvaluationLimits) returns (rows: Rows, lost: Relationship)
    ensures Live(rows, lost)
    ensures ResourceRelation(rows, lost.resource, lost.relation, FanoutQueryLimit(limits)) == []
  {
    var dead := Viewers(limits.maxFanoutPerStep + 1);
    lost := ViewerRow(limits.maxFanoutPerStep + 1);
    rows := Rows([], dead + [lost], set row | row in dead);
    NextViewerIsNew(limits.maxFanoutPerStep + 1);
    BuriedRow(dead, lost, OnResourceRelation(lost.resource, lost.relation));
  }

  /** What an exact answer needs: membership is well defined, candidates can be checked exactly, and
      no row query is silently cut short. */
  ghost predicate Assured(snapshot: Snapshot, limits: EvaluationLimits, subjectType: string) {
    && WellFormed(snapshot.schema) && Regular(snapshot)
    && TypeFits(snapshot.rows, subjectType) && Untruncated(snapshot.rows, limits)
  }

  lemma LimitedRowsMatch(rows: Rows, limits: EvaluationLimits, node: Node)
    ensures forall row :: row in ResourceRelation(rows, node.entity, node.relation, FanoutQueryLimit(limits)) ==>
                            row in RowsOn(rows, node.entity, node.relation)
  {
    QueryIsSound(rows, OnResourceRelation(node.entity, node.relation), FanoutQueryLimit(limits));
    RowsOnAreLive(rows, node.entity, node.relation);
  }

  lemma WithinLimitIsComplete(snapshot: Snapshot, limits: EvaluationLimits, subjectType: string, node: Node)
    requires Assured(snapshot, limits, subjectType)
    requires |ResourceRelation(snapshot.rows, node.entity, node.relation, FanoutQueryLimit(limits))| <= limits.maxFanoutPerStep
    ensures ResourceRelation(snapshot.rows, node.entity, node.relation, FanoutQueryLimit(limits)) == RowsOn(snapshot.rows, node.entity, node.relation)
  {
  }

  /** Without user usersets, on a view without tombstones, every exclusion-free schema qualifies. */
  lemma ExclusionFreeIsAssured(snapshot: Snapshot, limits: EvaluationLimits, subjectType: string)
    requires WellFormed(snapshot.schema) && ExclusionFree(snapshot.schema)
    requires NoUserUsersets(snapshot.rows) && snapshot.rows.deleted == {}
    ensures Assured(snapshot, limits, subjectType)
  {
    NoTombstonesNoTruncation(snapshot.rows, limits);
  }
}
