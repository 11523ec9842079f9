/** What a memo-free check computes, as a function of the request: the active keys, the depth
    left, and the errors are all explicit. */
module CheckSpec {
  import opened Vocabulary
  import opened Domain
  import opened Schema
  import opened Semantics
  import opened MembershipAlgebra

  datatype EvaluationLimits = EvaluationLimits(maxDepth: nat, maxFanoutPerStep: nat, maxLookupResults: nat)

  /** How a key is represented. Two keys for the same check are equal only if their forms are. */
  datatype KeyForm = StoreNative | PublicName | Public

  datatype CheckKey = CheckKey(form: KeyForm, entity: Object, relation: string, user: User)

  datatype EvaluationError =
    | DepthExceeded(key: CheckKey)
    | ExpandDepthExceeded(node: Node)
    | FanoutExceeded(limit: nat)
    | SchemaFailure(error: SchemaError)
    | InvalidIdentifier
    | UnresolvedRelationId
    | UnrepresentableSubject

  type Outcome = Result<Membership, EvaluationError>

  predicate Interned(symbols: set<string>, entity: Object, relation: string, user: User) {
    && entity.namespace in symbols && entity.id in symbols && relation in symbols
    && match user
       case UserId(id) => USER_TYPE in symbols && id in symbols
       case Userset(inner, innerRelation) =>
         inner.namespace in symbols && inner.id in symbols && innerRelation in symbols
  }

  function FormFor(snapshot: Snapshot, entity: Object, relation: string, user: User, otherwise: KeyForm): KeyForm {
    if snapshot.nativeSymbols.Some? && Interned(snapshot.nativeSymbols.value, entity, relation, user)
    then StoreNative else otherwise
  }

  /** The key of a request. */
  function RootKey(snapshot: Snapshot, entity: Object, relation: string, user: User): CheckKey {
    CheckKey(FormFor(snapshot, entity, relation, user, Public), entity, relation, user)
  }

  /** The key of a check made while answering another one. */
  function NestedKey(snapshot: Snapshot, entity: Object, relation: string, user: User): CheckKey {
    CheckKey(FormFor(snapshot, entity, relation, user, PublicName), entity, relation, user)
  }

  datatype ExpectedResult = ExpectAllowed | ExpectDenied

  datatype ResidualCheck = ResidualCheck(relationContext: string, expression: CompiledExpression, expected: ExpectedResult)

  /** What is evaluated once a key has been entered. */
  datatype Body =
    | ByName
    | ById(id: RelationId)
    | RowsOnly
    | Prepared(definition: RelationDefinition)
    | Residuals(checks: seq<ResidualCheck>)

  /** Everything a check depends on that stays fixed while it runs. */
  datatype Request = Request(snapshot: Snapshot, limits: EvaluationLimits, user: User)

  function CheckKeySpec(q: Request, depth: nat, stack: seq<CheckKey>, key: CheckKey, body: Body): Outcome
    decreases depth, 0
  {
    if key in stack then Ok(Denied)
    else if depth == 0 then Err(DepthExceeded(key))
    else BodySpec(q, depth - 1, stack + [key], key, body)
  }

  function BodySpec(q: Request, depth: nat, stack: seq<CheckKey>, key: CheckKey, body: Body): Outcome
    decreases depth, 5
  {
    match body
    case ByName =>
      if !ValidTypeName(key.entity.namespace) || !ValidTypeName(key.relation) then Err(InvalidIdentifier)
      else
        (match q.snapshot.schema.resolver.Relation(key.entity.namespace, key.relation)
         case Err(error) => Err(SchemaFailure(error))
         case Ok(definition) => DefinitionSpec(q, depth, stack, key.entity, key.relation, definition))
    case ById(id) =>
      (match q.snapshot.schema.resolver.ById(id)
       case None => Err(UnresolvedRelationId)
       case Some(definition) => DefinitionSpec(q, depth, stack, key.entity, key.relation, definition))
    case RowsOnly => ThisSpec(q, depth, stack, key.entity, key.relation)
    case Prepared(definition) => DefinitionSpec(q, depth, stack, key.entity, definition.name, definition)
    case Residuals(checks) => ResidualsSpec(q, depth, stack, key.entity, checks)
  }

  function DefinitionSpec(q: Request, depth: nat, stack: seq<CheckKey>, entity: Object, relation: string,
                          definition: RelationDefinition): Outcome
    decreases depth, 4, 0
  {
    match definition.compiledRewrite
    case Some(e) => ExprSpec(q, depth, stack, entity, relation, e)
    case None => ThisSpec(q, depth, stack, entity, relation)
  }

  function ResidualsSpec(q: Request, depth: nat, stack: seq<CheckKey>, entity: Object, checks: seq<ResidualCheck>): Outcome
    decreases depth, 4, |checks|
  {
    if checks == [] then Ok(Allowed)
    else
      var result :- ExprSpec(q, depth, stack, entity, checks[0].relationContext, checks[0].expression);
      if (checks[0].expected == ExpectAllowed) != (result == Allowed) then Ok(Denied)
      else ResidualsSpec(q, depth, stack, entity, checks[1..])
  }

  function ExprSpec(q: Request, depth: nat, stack: seq<CheckKey>, entity: Object, relation: string, e: CompiledExpression): Outcome
    decreases depth, 3, e, 1
  {
    match e
    case This => ThisSpec(q, depth, stack, entity, relation)
    case ComputedUserset(target, id, targetHasRewrite) =>
      CheckKeySpec(q, depth, stack, NestedKey(q.snapshot, entity, target, q.user), if targetHasRewrite then ById(id) else RowsOnly)
    case TupleToUserset(_, id, computed) =>
      (match q.snapshot.schema.resolver.ById(id)
       case None => Err(UnresolvedRelationId)
       case Some(definition) => TupleSpec(q, depth, stack, entity, definition.name, computed))
    case Union(children) => UnionSpec(q, depth, stack, entity, relation, children, Denied)
    case Intersection(children) => IntersectionSpec(q, depth, stack, entity, relation, children, Allowed)
    case Exclusion(base, exclude) =>
      var included := ExprSpec(q, depth, stack, entity, relation, base);
      var excluded := ExprSpec(q, depth, stack, entity, relation, exclude);
      if EvaluatesExcludeFirst(exclude) then ExcludeThenBase(excluded, included) else BaseThenExclude(included, excluded)
  }

  /** The second operand, with its errors, counts only if the first does not settle the matter. */
  function ExcludeThenBase(excluded: Outcome, included: Outcome): Outcome {
    if excluded.Err? then excluded
    else if excluded.value == Allowed then Ok(Denied)
    else if included.Err? then included
    else Ok(included.value.Without(excluded.value))
  }

  function BaseThenExclude(included: Outcome, excluded: Outcome): Outcome {
    if included.Err? then included
    else if included.value == Denied then Ok(Denied)
    else if excluded.Err? then excluded
    else Ok(included.value.Without(excluded.value))
  }

  predicate EvaluatesExcludeFirst(exclude: CompiledExpression) {
    exclude.This? || (exclude.ComputedUserset? && !exclude.targetHasRewrite)
  }

  function UnionSpec(q: Request, depth: nat, stack: seq<CheckKey>, entity: Object, relation: string,
                     children: seq<CompiledExpression>, soFar: Membership): Outcome
    decreases depth, 3, children, 0
  {
    if children == [] then Ok(soFar)
    else
      var result :- ExprSpec(q, depth, stack, entity, relation, children[0]);
      if soFar.Combine(result) == Allowed then Ok(Allowed)
      else UnionSpec(q, depth, stack, entity, relation, children[1..], soFar.Combine(result))
  }

  function IntersectionSpec(q: Request, depth: nat, stack: seq<CheckKey>, entity: Object, relation: string,
                            children: seq<CompiledExpression>, soFar: Membership): Outcome
    decreases depth, 3, children, 0
  {
    if children == [] then Ok(soFar)
    else
      var result :- ExprSpec(q, depth, stack, entity, relation, children[0]);
      if soFar.Meet(result) == Denied then Ok(Denied)
      else IntersectionSpec(q, depth, stack, entity, relation, children[1..], soFar.Meet(result))
  }

  function ThisSpec(q: Request, depth: nat, stack: seq<CheckKey>, entity: Object, relation: string): Outcome
    decreases depth, 2
  {
    if !ValidObject(entity) || !ValidUser(q.user) then Err(InvalidIdentifier)
    else if AnyResourceRelationSubject(q.snapshot.rows, entity, relation, FilterOf(q.user)) then Ok(Allowed)
    else ScanSpec(q, depth, stack, RowsOn(q.snapshot.rows, entity, relation), None, 0)
  }

  function TupleSpec(q: Request, depth: nat, stack: seq<CheckKey>, entity: Object, tupleset: string, computed: string): Outcome
    decreases depth, 2
  {
    if !ValidObject(entity) then Err(InvalidIdentifier)
    else ScanSpec(q, depth, stack, RowsOn(q.snapshot.rows, entity, tupleset), Some(computed), 0)
  }

  /** The check a userset row leads to: its own relation, or the computed one. */
  function ScanTarget(subject: SubjectRef, computed: Option<string>): Node
    requires subject.UsersetSubject?
  {
    Node(subject.entity, if computed.Some? then computed.value else subject.relation)
  }

  function ScanSpec(q: Request, depth: nat, stack: seq<CheckKey>, rows: seq<Relationship>, computed: Option<string>, fanout: nat): Outcome
    decreases depth, 1, |rows|
  {
    if rows == [] then Ok(Denied)
    else if !rows[0].subject.UsersetSubject? then ScanSpec(q, depth, stack, rows[1..], computed, fanout)
    else if fanout + 1 > q.limits.maxFanoutPerStep then Err(FanoutExceeded(q.limits.maxFanoutPerStep))
    else
      var target := ScanTarget(rows[0].subject, computed);
      var result :- CheckKeySpec(q, depth, stack, NestedKey(q.snapshot, target.entity, target.relation, q.user), ByName);
      if result == Allowed then Ok(Allowed)
      else ScanSpec(q, depth, stack, rows[1..], computed, fanout + 1)
  }

  /** A request on an empty stack. */
  function RootSpec(q: Request, entity: Object, relation: string): Outcome {
    CheckKeySpec(q, q.limits.maxDepth, [], RootKey(q.snapshot, entity, relation, q.user), ByName)
  }
}
