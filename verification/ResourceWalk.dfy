/** The walk of a resource lookup as a function of its state: what one row, one schema edge and one
    frontier subject do to it when every verification answers what is true. */
module ResourceWalk {
  import opened Vocabulary
  import opened Domain
  import opened Semantics
  import opened CheckSpec
  import opened MemoCorrect
  import opened Planner
  import opened RelationEdges

  const SAMPLE_RELATIONSHIPS := 64
  const MIN_PRUNE_BASIS_POINTS := 500

  /** How a frontier subject is related to the requested one: `exact` at depth 0 is the subject itself. */
  datatype SubjectProof = SubjectProof(directDepth: nat, exact: bool) {
    function Next(): SubjectProof { if exact then SubjectProof(directDepth + 1, true) else INEXACT }
  }

  const INEXACT := SubjectProof(0, false)

  datatype FrontierEntry = FrontierEntry(subject: User, proof: SubjectProof)

  datatype LookupRequest = LookupRequest(subject: User, permission: string, resourceType: string)

  /** All rows naming a subject the filter matches. */
  function ReverseQuery(rows: Rows, filter: SubjectFilter): seq<Relationship> {
    Query(rows, (row: Relationship) => MatchesSubject(row.subject, filter), Unbounded)
  }

  function RuleFor(rules: seq<Rule>, relation: string): Verification {
    if rules == [] then FullRoot
    else if rules[0].relation == relation then rules[0].verification
    else RuleFor(rules[1..], relation)
  }

  lemma {:induction false} RuleIsListed(rules: seq<Rule>, relation: string)
    ensures RuleFor(rules, relation).FullRoot? || exists i :: 0 <= i < |rules| && rules[i] == Rule(relation, RuleFor(rules, relation))
  {
    if rules != [] && rules[0].relation != relation {
      RuleIsListed(rules[1..], relation);
      if !RuleFor(rules, relation).FullRoot? {
        var i :| 0 <= i < |rules[1..]| && rules[1..][i] == Rule(relation, RuleFor(rules[1..], relation));
        assert rules[i + 1] == Rule(relation, RuleFor(rules, relation));
      }
    }
  }

  /** What stays fixed during a walk. `posted` tells whether some segment's index still posts a row for a
      filter; dead rows may be posted too. */
  datatype Walk = Walk(
    snapshot: Snapshot,
    limits: EvaluationLimits,
    request: LookupRequest,
    posted: SubjectFilter -> bool,
    plan: Option<ProducerPlan>)
  {
    /** How exactly a row relates its resource to the requested subject: only a row that names the
        subject itself, on a relation that is nothing but its rows, is exact. */
    function RelationshipProof(row: Relationship, proof: SubjectProof): (r: Result<SubjectProof, EvaluationError>)
      ensures r.Ok? && r.value.exact ==> proof.exact && proof.directDepth == 0 && r.value.directDepth == 1
    {
      if !proof.exact || proof.directDepth > 0 then Ok(INEXACT)
      else if !ValidTypeName(row.resource.namespace) || !ValidTypeName(row.relation) then Err(InvalidIdentifier)
      else
        match snapshot.schema.resolver.Relation(row.resource.namespace, row.relation)
        case Err(error) => Err(SchemaFailure(error))
        case Ok(definition) =>
          if definition.compiledRewrite.None? || definition.compiledRewrite.value.This? then Ok(proof.Next()) else Ok(INEXACT)
    }

    function VerificationFor(row: Relationship, proof: SubjectProof): Verification {
      if plan.None? || !proof.exact || proof.directDepth >= limits.maxDepth then FullRoot
      else RuleFor(plan.value.rules, row.relation)
    }

    predicate OfRequestedType(entity: Object) { entity.namespace == request.resourceType }

    /** A row of the requested type on a relation the plan does not mention. */
    predicate Prunable(row: Relationship) {
      OfRequestedType(row.resource) && plan.Some? && row.relation !in plan.value.relations
    }

    /** The tuple-to-userset edges for which no row names the computed userset itself. */
    function BroadTargets(targets: seq<TupleTarget>, entity: Object): seq<TupleTarget> {
      Select(targets, (t: TupleTarget) => Broad(t, entity))
    }

    predicate Broad(t: TupleTarget, entity: Object) { !posted(FilterOf(Userset(entity, t.computed))) }

    ghost predicate Holds(entity: Object) { Member(snapshot, request.subject)(Node(entity, request.permission)) }

    /** What a verification answers if it answers the truth. */
    ghost predicate Verdict(entity: Object, verification: Verification) {
      match verification
      case FullRoot => Holds(entity)
      case ProvenWithoutCheck => true
      case Residual(checks) => ResidualsHold(snapshot, request.subject, Member(snapshot, request.subject), entity, checks)
    }
  }

  /** The walk of a request, with the plan the planner makes for it. */
  function WalkOf(snapshot: Snapshot, request: LookupRequest, limits: EvaluationLimits, posted: SubjectFilter -> bool): Walk {
    var plan := LookupProducerPlan(snapshot.schema, request.resourceType, request.permission);
    Walk(snapshot, limits, request, posted, if plan.Ok? then plan.value else None)
  }

  datatype WalkState = WalkState(
    frontier: seq<FrontierEntry>,
    visited: set<User>,
    seen: set<Object>,
    resources: seq<Object>,
    pruning: bool,
    sampled: nat,
    pruned: nat)

  function Start(w: Walk): WalkState {
    WalkState([FrontierEntry(w.request.subject, SubjectProof(0, true))], {w.request.subject}, {}, [], w.plan.Some?, 0, 0)
  }

  predicate Full(w: Walk, st: WalkState) { |st.resources| >= w.limits.maxLookupResults }

  function Enqueued(st: WalkState, subject: User, proof: SubjectProof): WalkState {
    if subject in st.visited then st
    else st.(visited := st.visited + {subject}, frontier := st.frontier + [FrontierEntry(subject, proof)])
  }

  predicate Prunes(w: Walk, st: WalkState, row: Relationship) {
    w.OfRequestedType(row.resource) && w.plan.Some? && st.pruning && row.relation !in w.plan.value.relations
  }

  /** The first rows of the requested type are sampled; pruning is given up if it does not pay. */
  function Sampled(w: Walk, st: WalkState, row: Relationship): WalkState {
    if !w.OfRequestedType(row.resource) || w.plan.None? || !st.pruning || st.sampled >= SAMPLE_RELATIONSHIPS then st
    else
      var sampled := st.sampled + 1;
      var pruned := if Prunes(w, st, row) then st.pruned + 1 else st.pruned;
      var pays := sampled != SAMPLE_RELATIONSHIPS || pruned * 10000 >= MIN_PRUNE_BASIS_POINTS * sampled;
      st.(sampled := sampled, pruned := pruned, pruning := pays)
  }

  /** A resource of the requested type is verified on first sight only. */
  ghost function Considered(w: Walk, st: WalkState, entity: Object, verification: Verification): WalkState {
    if entity in st.seen then st
    else st.(seen := st.seen + {entity}, resources := if w.Verdict(entity, verification) then st.resources + [entity] else st.resources)
  }

  ghost function RowStep(w: Walk, st: WalkState, row: Relationship, entry: FrontierEntry): Result<WalkState, EvaluationError> {
    var prune, next := Prunes(w, st, row), Userset(row.resource, row.relation);
    var sampled := Sampled(w, st, row);
    if prune && !w.posted(SubjectFilter(w.request.resourceType, None, Some(row.relation))) then Ok(sampled)
    else
      var proof :- w.RelationshipProof(row, entry.proof);
      var considered := if w.OfRequestedType(row.resource) && !prune
                        then Considered(w, sampled, row.resource, w.VerificationFor(row, proof)) else sampled;
      if Full(w, considered) then Ok(considered)
      else if prune && !ValidUser(next) then Err(InvalidIdentifier)
      else Ok(if !prune || w.posted(FilterOf(next)) then Enqueued(considered, next, proof) else considered)
  }

  ghost function RowsStep(w: Walk, st: WalkState, rows: seq<Relationship>, entry: FrontierEntry): Result<WalkState, EvaluationError>
    decreases |rows|
  {
    if rows == [] || Full(w, st) then Ok(st)
    else
      var next :- RowStep(w, st, rows[0], entry);
      RowsStep(w, next, rows[1..], entry)
  }

  /** Follows the schema from a userset to other relations of the same object. */
  function ExpandStep(w: Walk, st: WalkState, subject: User): Result<WalkState, EvaluationError> {
    match subject
    case UserId(_) => Ok(st)
    case Userset(entity, relation) =>
      if !ValidTypeName(entity.namespace) || !ValidTypeName(relation) then Err(InvalidIdentifier)
      else
        var targets :- SameObjectExpansions(w.snapshot.schema, entity.namespace, relation);
        ExpandTargets(w, st, entity, targets)
  }

  function ExpandTargets(w: Walk, st: WalkState, entity: Object, targets: seq<string>): Result<WalkState, EvaluationError>
    decreases |targets|
  {
    if targets == [] then Ok(st)
    else
      var expanded := Userset(entity, targets[0]);
      if !ValidUser(expanded) then Err(InvalidIdentifier)
      else ExpandTargets(w, if w.posted(FilterOf(expanded)) then Enqueued(st, expanded, INEXACT) else st, entity, targets[1..])
  }

  ghost function TargetStep(w: Walk, st: WalkState, row: Relationship, t: TupleTarget): Result<WalkState, EvaluationError> {
    if row.resource.namespace != t.resourceType || row.relation != t.tupleset then Ok(st)
    else
      var considered := if w.OfRequestedType(row.resource) then Considered(w, st, row.resource, FullRoot) else st;
      var next := Userset(row.resource, t.target);
      if Full(w, considered) then Ok(considered)
      else if !ValidUser(next) then Err(InvalidIdentifier)
      else Ok(if w.posted(FilterOf(next)) then Enqueued(considered, next, INEXACT) else considered)
  }

  ghost function TargetsStep(w: Walk, st: WalkState, row: Relationship, targets: seq<TupleTarget>): Result<WalkState, EvaluationError>
    decreases |targets|
  {
    if targets == [] || Full(w, st) then Ok(st)
    else
      var next :- TargetStep(w, st, row, targets[0]);
      TargetsStep(w, next, row, targets[1..])
  }

  ghost function TupleRowsStep(w: Walk, st: WalkState, rows: seq<Relationship>, targets: seq<TupleTarget>): Result<WalkState, EvaluationError>
    decreases |rows|
  {
    if rows == [] || Full(w, st) then Ok(st)
    else
      var next :- TargetsStep(w, st, rows[0], targets);
      TupleRowsStep(w, next, rows[1..], targets)
  }

  /** Follows rows that name the userset's object under any relation, for tuple-to-userset rewrites
      that ignore the relation stored in them. */
  ghost function TupleStep(w: Walk, st: WalkState, subject: User): Result<WalkState, EvaluationError> {
    match subject
    case UserId(_) => Ok(st)
    case Userset(entity, relation) =>
      if !ValidTypeName(entity.namespace) || !ValidTypeName(relation) then Err(InvalidIdentifier)
      else
        var targets :- TupleTargets(w.snapshot.schema, w.snapshot.schema.definitions, entity.namespace, relation);
        if !ValidId(entity.id) then Err(InvalidIdentifier)
        else if w.BroadTargets(targets, entity) == [] then Ok(st)
        else
          TupleRowsStep(w, st, ReverseQuery(w.snapshot.rows, SubjectFilter(entity.namespace, Some(entity.id), None)), w.BroadTargets(targets, entity))
  }

  ghost function NamedRowsStep(w: Walk, st: WalkState, entry: FrontierEntry): Result<WalkState, EvaluationError> {
    if !ValidUser(entry.subject) then Err(InvalidIdentifier)
    else RowsStep(w, st, ReverseQuery(w.snapshot.rows, FilterOf(entry.subject)), entry)
  }

  predicate Done(w: Walk, st: WalkState) { st.frontier == [] || Full(w, st) }

  /** Walks one frontier subject. */
  ghost function Step(w: Walk, st: WalkState): Result<WalkState, EvaluationError> {
    if Done(w, st) then Ok(st)
    else
      var entry := st.frontier[0];
      var expanded :- ExpandStep(w, st.(frontier := st.frontier[1..]), entry.subject);
      var named :- NamedRowsStep(w, expanded, entry);
      if Full(w, named) then Ok(named) else TupleStep(w, named, entry.subject)
  }

  ghost function After(w: Walk, n: nat): Result<WalkState, EvaluationError> {
    if n == 0 then Ok(Start(w))
    else
      var before :- After(w, n - 1);
      Step(w, before)
  }

  /** The walk ends with these resources. */
  ghost predicate Yields(w: Walk, resources: seq<Object>) {
    exists n: nat :: FinishedAfter(w, n) && After(w, n).value.resources == resources
  }

  ghost predicate FinishedAfter(w: Walk, n: nat) {
    After(w, n).Ok? && Done(w, After(w, n).value)
  }

  lemma {:induction false} FinishedStays(w: Walk, n: nat, m: nat)
    requires FinishedAfter(w, n) && n <= m
    ensures After(w, m) == After(w, n)
    decreases m
  {
    if n < m {
      FinishedStays(w, n, m - 1);
    }
  }

  /** A walk ends with one result. */
  lemma YieldsOnce(w: Walk, left: seq<Object>, right: seq<Object>)
    requires Yields(w, left) && Yields(w, right)
    ensures left == right
  {
    var n: nat :| FinishedAfter(w, n) && After(w, n).value.resources == left;
    var m: nat :| FinishedAfter(w, m) && After(w, m).value.resources == right;
    if n <= m {
      FinishedStays(w, n, m);
    } else {
      FinishedStays(w, m, n);
    }
  }

  // ---------------------------------------------------------------- the finite space of the walk

  function Resources(rows: Rows): set<Object> {
    set row | row in rows.inserted + rows.checkpoint :: row.resource
  }

  function RowRelations(rows: Rows): set<string> {
    set row | row in rows.inserted + rows.checkpoint :: row.relation
  }

  function Origins(subject: User): set<Object> {
    if subject.Userset? then {subject.entity} else {}
  }

  function WalkRelations(snapshot: Snapshot): set<string> {
    RowRelations(snapshot.rows) + RelationNames(snapshot.schema.definitions) + RelationNames(snapshot.schema.resolver.definitions)
  }

  /** Every subject the walk can reach: the request's own, and usersets over stored resources and
      relations named by a row or by the schema. */
  function WalkSpace(snapshot: Snapshot, subject: User): set<User> {
    {subject} + set entity, relation | entity in Resources(snapshot.rows) + Origins(subject) && relation in WalkRelations(snapshot)
                  :: Userset(entity, relation)
  }

  lemma RowStaysInSpace(snapshot: Snapshot, subject: User, row: Relationship)
    requires Live(snapshot.rows, row)
    ensures row.resource in Resources(snapshot.rows)
    ensures Userset(row.resource, row.relation) in WalkSpace(snapshot, subject)
  {
    assert row in snapshot.rows.inserted + snapshot.rows.checkpoint;
    assert row.relation in WalkRelations(snapshot);
  }

  lemma EdgeStaysInSpace(snapshot: Snapshot, subject: User, from: User, relation: string)
    requires from in WalkSpace(snapshot, subject) && from.Userset?
    requires relation in RelationNames(snapshot.schema.resolver.definitions)
    ensures Userset(from.entity, relation) in WalkSpace(snapshot, subject)
  {
    assert from.entity in Resources(snapshot.rows) + Origins(subject);
  }

  lemma TargetStaysInSpace(snapshot: Snapshot, subject: User, row: Relationship, target: string)
    requires Live(snapshot.rows, row) && target in RelationNames(snapshot.schema.definitions)
    ensures Userset(row.resource, target) in WalkSpace(snapshot, subject)
  {
    RowStaysInSpace(snapshot, subject, row);
    assert target in WalkRelations(snapshot);
  }
}
