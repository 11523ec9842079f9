/** What a check that remembers its answers computes, as a function of the request and of what is
    remembered: the answer, what is remembered afterwards, and how deep the evaluation went. Without a memo
    nothing is remembered and every key is evaluated. */
module MemoSpec {
  import opened Vocabulary
  import opened Domain
  import opened Schema
  import opened Semantics
  import opened MembershipAlgebra
  import opened CheckSpec
  import opened CheckMemo

  type Memo = Option<RequestCheckMemo>

  /** `low` is the least depth that was left anywhere inside, if a key was entered at all. */
  datatype Memoised = Memoised(outcome: Outcome, memo: Memo, low: Option<nat>) {
    function Below(above: Option<nat>): Memoised { this.(low := Lowest(above, low)) }
  }

  function Lower(left: nat, right: nat): nat { if left < right then left else right }

  function Lowest(left: Option<nat>, right: Option<nat>): Option<nat> {
    match (left, right)
    case (Some(l), Some(r)) => Some(Lower(l, r))
    case (Some(_), None) => left
    case (None, _) => right
  }

  /** The answer remembered for a key; a key entered first is never looked up. */
  function Remembered(memo: Memo, stack: seq<CheckKey>, key: CheckKey, depth: nat): Option<Membership> {
    if memo.Some? && stack != [] && memo.value.Get(MemoKeyOf(key), depth).Hit?
    then Some(memo.value.Get(MemoKeyOf(key), depth).membership) else None
  }

  function Remembering(memo: Memo, stack: seq<CheckKey>, key: CheckKey, outcome: Outcome, depthRequired: nat): Memo {
    if memo.Some? && stack != [] && outcome.Ok? && outcome.value.IsMemoCacheable()
    then Some(memo.value.Insert(MemoKeyOf(key), outcome.value, depthRequired)) else memo
  }

  function KeyMemo(q: Request, depth: nat, stack: seq<CheckKey>, memo: Memo, key: CheckKey, body: Body): (m: Memoised)
    decreases depth, 0
    ensures m.memo.Some? == memo.Some?
  {
    if key in stack then Memoised(Ok(Denied), memo, None)
    else if Remembered(memo, stack, key, depth).Some? then Memoised(Ok(Remembered(memo, stack, key, depth).value), memo, None)
    else if depth == 0 then Memoised(Err(DepthExceeded(key)), memo, None)
    else
      var inner := BodyMemo(q, depth - 1, stack + [key], memo, key, body);
      var low := Lowest(Some(depth - 1), inner.low).value;
      Memoised(inner.outcome, Remembering(inner.memo, stack, key, inner.outcome, depth - low), Some(low))
  }

  function BodyMemo(q: Request, depth: nat, stack: seq<CheckKey>, memo: Memo, key: CheckKey, body: Body): (m: Memoised)
    decreases depth, 5
    ensures m.memo.Some? == memo.Some? && (m.low.Some? ==> m.low.value <= depth)
  {
    match body
    case ByName =>
      if !ValidTypeName(key.entity.namespace) || !ValidTypeName(key.relation) then Memoised(Err(InvalidIdentifier), memo, None)
      else
        (match q.snapshot.schema.resolver.Relation(key.entity.namespace, key.relation)
         case Err(error) => Memoised(Err(SchemaFailure(error)), memo, None)
         case Ok(definition) => DefinitionMemo(q, depth, stack, memo, key.entity, key.relation, definition))
    case ById(id) =>
      (match q.snapshot.schema.resolver.ById(id)
       case None => Memoised(Err(UnresolvedRelationId), memo, None)
       case Some(definition) => DefinitionMemo(q, depth, stack, memo, key.entity, key.relation, definition))
    case RowsOnly => ThisMemo(q, depth, stack, memo, key.entity, key.relation)
    case Prepared(definition) => DefinitionMemo(q, depth, stack, memo, key.entity, definition.name, definition)
    case Residuals(checks) => ResidualsMemo(q, depth, stack, memo, key.entity, checks)
  }

  function DefinitionMemo(q: Request, depth: nat, stack: seq<CheckKey>, memo: Memo, entity: Object, relation: string,
                          definition: RelationDefinition): (m: Memoised)
    decreases depth, 4, 0
    ensures m.memo.Some? == memo.Some? && (m.low.Some? ==> m.low.value <= depth)
  {
    match definition.compiledRewrite
    case Some(e) => ExprMemo(q, depth, stack, memo, entity, relation, e)
    case None => ThisMemo(q, depth, stack, memo, entity, relation)
  }

  function ResidualsMemo(q: Request, depth: nat, stack: seq<CheckKey>, memo: Memo, entity: Object, checks: seq<ResidualCheck>): (m: Memoised)
    decreases depth, 4, |checks|
    ensures m.memo.Some? == memo.Some? && (m.low.Some? ==> m.low.value <= depth)
  {
    if checks == [] then Memoised(Ok(Allowed), memo, None)
    else
      var first := ExprMemo(q, depth, stack, memo, entity, checks[0].relationContext, checks[0].expression);
      if first.outcome.Err? then first
      else if (checks[0].expected == ExpectAllowed) != (first.outcome.value == Allowed) then first.(outcome := Ok(Denied))
      else ResidualsMemo(q, depth, stack, first.memo, entity, checks[1..]).Below(first.low)
  }

  function ExprMemo(q: Request, depth: nat, stack: seq<CheckKey>, memo: Memo, entity: Object, relation: string, e: CompiledExpression): (m: Memoised)
    decreases depth, 3, e, 1
    ensures m.memo.Some? == memo.Some? && (m.low.Some? ==> m.low.value <= depth)
  {
    match e
    case This => ThisMemo(q, depth, stack, memo, entity, relation)
    case ComputedUserset(target, id, targetHasRewrite) => ComputedMemo(q, depth, stack, memo, entity, target, id, targetHasRewrite)
    case TupleToUserset(_, id, computed) =>
      (match q.snapshot.schema.resolver.ById(id)
       case None => Memoised(Err(UnresolvedRelationId), memo, None)
       case Some(definition) => TupleMemo(q, depth, stack, memo, entity, definition.name, computed))
    case Union(children) => UnionMemo(q, depth, stack, memo, entity, relation, children, Denied)
    case Intersection(children) => IntersectionMemo(q, depth, stack, memo, entity, relation, children, Allowed)
    case Exclusion(base, exclude) =>
      if EvaluatesExcludeFirst(exclude) then ExcludeFirstMemo(q, depth, stack, memo, entity, relation, base, exclude)
      else BaseFirstMemo(q, depth, stack, memo, entity, relation, base, exclude)
  }

  function ExcludeFirstMemo(q: Request, depth: nat, stack: seq<CheckKey>, memo: Memo, entity: Object, relation: string,
                            base: CompiledExpression, exclude: CompiledExpression): (m: Memoised)
    decreases depth, 3, Exclusion(base, exclude), 0
    ensures m.memo.Some? == memo.Some? && (m.low.Some? ==> m.low.value <= depth)
  {
    var first := ExprMemo(q, depth, stack, memo, entity, relation, exclude);
    if first.outcome.Err? then first
    else if first.outcome.value == Allowed then first.(outcome := Ok(Denied))
    else Included(ExprMemo(q, depth, stack, first.memo, entity, relation, base).Below(first.low), first.outcome.value)
  }

  function BaseFirstMemo(q: Request, depth: nat, stack: seq<CheckKey>, memo: Memo, entity: Object, relation: string,
                         base: CompiledExpression, exclude: CompiledExpression): (m: Memoised)
    decreases depth, 3, Exclusion(base, exclude), 0
    ensures m.memo.Some? == memo.Some? && (m.low.Some? ==> m.low.value <= depth)
  {
    var first := ExprMemo(q, depth, stack, memo, entity, relation, base);
    if first.outcome.Err? || first.outcome.value == Denied then first
    else Excluded(ExprMemo(q, depth, stack, first.memo, entity, relation, exclude).Below(first.low), first.outcome.value)
  }

  /** The base was evaluated last, and the excluded part before it. */
  function Included(last: Memoised, excluded: Membership): Memoised {
    if last.outcome.Err? then last else last.(outcome := Ok(last.outcome.value.Without(excluded)))
  }

  /** The excluded part was evaluated last, and the base before it. */
  function Excluded(last: Memoised, included: Membership): Memoised {
    if last.outcome.Err? then last else last.(outcome := Ok(included.Without(last.outcome.value)))
  }

  function ComputedMemo(q: Request, depth: nat, stack: seq<CheckKey>, memo: Memo, entity: Object, target: string, id: RelationId, targetHasRewrite: bool)
    : (m: Memoised)
    decreases depth, 1, 0
    ensures m.memo.Some? == memo.Some? && (m.low.Some? ==> m.low.value <= depth)
  {
    KeyMemo(q, depth, stack, memo, NestedKey(q.snapshot, entity, target, q.user), if targetHasRewrite then ById(id) else RowsOnly)
  }

  function UnionMemo(q: Request, depth: nat, stack: seq<CheckKey>, memo: Memo, entity: Object, relation: string,
                     children: seq<CompiledExpression>, soFar: Membership): (m: Memoised)
    decreases depth, 3, children, 0
    ensures m.memo.Some? == memo.Some? && (m.low.Some? ==> m.low.value <= depth)
  {
    if children == [] then Memoised(Ok(soFar), memo, None)
    else
      var first := ExprMemo(q, depth, stack, memo, entity, relation, children[0]);
      if first.outcome.Err? then first
      else if soFar.Combine(first.outcome.value) == Allowed then first.(outcome := Ok(Allowed))
      else UnionMemo(q, depth, stack, first.memo, entity, relation, children[1..], soFar.Combine(first.outcome.value)).Below(first.low)
  }

  function IntersectionMemo(q: Request, depth: nat, stack: seq<CheckKey>, memo: Memo, entity: Object, relation: string,
                            children: seq<CompiledExpression>, soFar: Membership): (m: Memoised)
    decreases depth, 3, children, 0
    ensures m.memo.Some? == memo.Some? && (m.low.Some? ==> m.low.value <= depth)
    ensures m.outcome == Ok(Allowed) ==> soFar == Allowed
  {
    if children == [] then Memoised(Ok(soFar), memo, None)
    else
      var first := ExprMemo(q, depth, stack, memo, entity, relation, children[0]);
      if first.outcome.Err? then first
      else if soFar.Meet(first.outcome.value) == Denied then first.(outcome := Ok(Denied))
      else IntersectionMemo(q, depth, stack, first.memo, entity, relation, children[1..], soFar.Meet(first.outcome.value)).Below(first.low)
  }

  function ThisMemo(q: Request, depth: nat, stack: seq<CheckKey>, memo: Memo, entity: Object, relation: string): (m: Memoised)
    decreases depth, 2
    ensures m.memo.Some? == memo.Some? && (m.low.Some? ==> m.low.value <= depth)
  {
    if !ValidObject(entity) || !ValidUser(q.user) then Memoised(Err(InvalidIdentifier), memo, None)
    else if AnyResourceRelationSubject(q.snapshot.rows, entity, relation, FilterOf(q.user)) then Memoised(Ok(Allowed), memo, None)
    else ScanMemo(q, depth, stack, memo, RowsOn(q.snapshot.rows, entity, relation), None, 0)
  }

  function TupleMemo(q: Request, depth: nat, stack: seq<CheckKey>, memo: Memo, entity: Object, tupleset: string, computed: string): (m: Memoised)
    decreases depth, 2
    ensures m.memo.Some? == memo.Some? && (m.low.Some? ==> m.low.value <= depth)
  {
    if !ValidObject(entity) then Memoised(Err(InvalidIdentifier), memo, None)
    else ScanMemo(q, depth, stack, memo, RowsOn(q.snapshot.rows, entity, tupleset), Some(computed), 0)
  }

  function ScanMemo(q: Request, depth: nat, stack: seq<CheckKey>, memo: Memo, rows: seq<Relationship>, computed: Option<string>, fanout: nat): (m: Memoised)
    decreases depth, 1, |rows|
    ensures m.memo.Some? == memo.Some? && (m.low.Some? ==> m.low.value <= depth)
  {
    if rows == [] then Memoised(Ok(Denied), memo, None)
    else if !rows[0].subject.UsersetSubject? then ScanMemo(q, depth, stack, memo, rows[1..], computed, fanout)
    else if fanout + 1 > q.limits.maxFanoutPerStep then Memoised(Err(FanoutExceeded(q.limits.maxFanoutPerStep)), memo, None)
    else
      var target := ScanTarget(rows[0].subject, computed);
      var first := KeyMemo(q, depth, stack, memo, NestedKey(q.snapshot, target.entity, target.relation, q.user), ByName);
      if first.outcome.Err? || first.outcome.value == Allowed then first
      else ScanMemo(q, depth, stack, first.memo, rows[1..], computed, fanout + 1).Below(first.low)
  }

  /** A request on an empty stack. */
  function RootMemo(q: Request, memo: Memo, entity: Object, relation: string): Memoised {
    KeyMemo(q, q.limits.maxDepth, [], memo, RootKey(q.snapshot, entity, relation, q.user), ByName)
  }
}
