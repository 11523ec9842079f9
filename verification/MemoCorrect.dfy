/** What remembered answers may be relied on for: on acyclic data a memoised check answers what the
    memo-free one does, and on exclusion-free schemas what it allows is right. */
module MemoCorrect {
  import opened Vocabulary
  import opened Schema
  import opened Semantics
  import opened MembershipAlgebra
  import opened CheckSpec
  import opened CheckCorrect
  import opened CheckMemo
  import opened MemoSpec

  /** What a memoised evaluation promises against the memo-free one: it is the same without a memo,
      and with one it answers, equally, whenever the memo-free one does. */
  ghost predicate Tracks(memoised: bool, spec: Outcome, r: Outcome) {
    if memoised then spec.Ok? ==> r == spec else r == spec
  }

  /** Why a memo may be relied on, if it may: on acyclic data its answers are exact; on an
      exclusion-free schema, where a denial may be remembered from inside a cycle, what it allows is
      still right. */
  datatype Trust = Untrusted | OnAcyclic(rank: Rank) | OnPositive

  ghost predicate Justified(snapshot: Snapshot, user: User, trust: Trust) {
    match trust
    case Untrusted => true
    case OnAcyclic(rank) => WellFormed(snapshot.schema) && Acyclic(snapshot, rank) && DirectExact(snapshot.rows, user)
    case OnPositive => WellFormed(snapshot.schema) && ExclusionFree(snapshot.schema)
  }

  /** How an answer relates to the truth under a given trust. */
  ghost predicate Reads(trust: Trust, r: Outcome, holds: bool) {
    match trust
    case Untrusted => true
    case OnAcyclic(_) => Agrees(r, holds)
    case OnPositive => r == Ok(Allowed) ==> holds
  }

  ghost predicate RanksBelow(trust: Trust, bound: nat, node: Node) {
    trust.OnAcyclic? ==> trust.rank(node) < bound
  }

  ghost predicate StackReady(q: Request, trust: Trust, stack: seq<CheckKey>, bound: nat) {
    trust.OnAcyclic? ==> StackAbove(q, stack, trust.rank, bound)
  }

  ghost function BoundAt(trust: Trust, node: Node): nat {
    if trust.OnAcyclic? then trust.rank(node) else 0
  }

  ghost predicate ExprReady(snapshot: Snapshot, trust: Trust, bound: nat, node: Node, e: CompiledExpression) {
    && Linked(snapshot.schema, node.entity.namespace, e)
    && (trust.OnAcyclic? ==> RankedExpr(snapshot, trust.rank, bound, node, e))
    && (trust.OnPositive? ==> Positive(e))
  }

  ghost predicate ThisReady(snapshot: Snapshot, trust: Trust, bound: nat, node: Node) {
    trust.OnAcyclic? ==> RankedThis(snapshot.rows, trust.rank, bound, node)
  }

  ghost predicate DefinitionReady(snapshot: Snapshot, trust: Trust, bound: nat, node: Node, definition: RelationDefinition) {
    match definition.compiledRewrite
    case Some(e) => ExprReady(snapshot, trust, bound, node, e)
    case None => ThisReady(snapshot, trust, bound, node)
  }

  function NodeOf(key: CheckKey): Node { Node(key.entity, key.relation) }

  /** What answering "allowed" for a key means. */
  ghost predicate Means(snapshot: Snapshot, user: User, key: CheckKey, body: Body) {
    match body
    case Residuals(residuals) => ResidualsHold(snapshot, user, Member(snapshot, user), key.entity, residuals)
    case _ => Member(snapshot, user)(NodeOf(key))
  }

  ghost predicate ResidualHolds(snapshot: Snapshot, user: User, val: Valuation, entity: Object, residual: ResidualCheck) {
    ExprHolds(snapshot, user, val, Node(entity, residual.relationContext), residual.expression) == (residual.expected == ExpectAllowed)
  }

  /** Every guard evaluates to what it is expected to. */
  ghost predicate ResidualsHold(snapshot: Snapshot, user: User, val: Valuation, entity: Object, residuals: seq<ResidualCheck>) {
    forall i :: 0 <= i < |residuals| ==> ResidualHolds(snapshot, user, val, entity, residuals[i])
  }

  ghost predicate ResidualReady(snapshot: Snapshot, trust: Trust, bound: nat, entity: Object, residual: ResidualCheck) {
    && ExprReady(snapshot, trust, bound, Node(entity, residual.relationContext), residual.expression)
    && (trust.OnPositive? ==> residual.expected == ExpectAllowed)
  }

  ghost predicate BodyReady(snapshot: Snapshot, trust: Trust, key: CheckKey, body: Body) {
    match body
    case Residuals(residuals) =>
      forall i :: 0 <= i < |residuals| ==>
        ResidualReady(snapshot, trust, BoundAt(trust, NodeOf(key)), key.entity, residuals[i])
    case _ => BodyFits(snapshot.schema, NodeOf(key), body)
  }

  /** Under either trust, entering a key evaluates the equation of its node. */
  lemma EnteredNodeReady(snapshot: Snapshot, user: User, trust: Trust, node: Node)
    requires !trust.Untrusted? && Justified(snapshot, user, trust)
    ensures Member(snapshot, user)(node) <==> BodyHolds(snapshot, user, Member(snapshot, user), node)
    ensures var found := snapshot.schema.resolver.Relation(node.entity.namespace, node.relation);
            found.Ok? ==> found.value.name == node.relation
                          && DefinitionReady(snapshot, trust, BoundAt(trust, node), node, found.value)
  {
    hide Member;
    MemberSolves(snapshot, user);
    var found := snapshot.schema.resolver.Relation(node.entity.namespace, node.relation);
    if found.Ok? {
      FoundIsLinked(snapshot.schema, node.entity.namespace, node.relation);
    }
  }

  /** On acyclic data a remembered answer is the one the memo-free check gives, if it gives one. */
  lemma RememberedIsSpec(q: Request, depth: nat, stack: seq<CheckKey>, trust: Trust, key: CheckKey, body: Body, membership: Membership)
    requires trust.OnAcyclic? && Justified(q.snapshot, q.user, trust)
    requires StackReady(q, trust, stack, BoundAt(trust, NodeOf(key)) + 1)
    requires key == KeyOf(q, NodeOf(key)) && BodyFits(q.snapshot.schema, NodeOf(key), body)
    requires membership == FromBool(Member(q.snapshot, q.user)(NodeOf(key)))
    ensures Tracks(true, CheckKeySpec(q, depth, stack, key, body), Ok(membership))
  {
    AcyclicAnswers(q, depth, stack, trust.rank, trust.rank(NodeOf(key)) + 1);
  }

  lemma EnteredStackAbove(q: Request, stack: seq<CheckKey>, key: CheckKey, rank: Rank)
    requires StackAbove(q, stack, rank, rank(NodeOf(key)) + 1)
    ensures StackAbove(q, stack + [key], rank, rank(NodeOf(key)))
  {
    forall node: Node | KeyOf(q, node) in stack + [key] ensures rank(node) >= rank(NodeOf(key)) {
      assert KeyOf(q, node) in stack || KeyOf(q, node) == key;
    }
  }

  lemma ThisFromScan(rows: Rows, user: User, val: Valuation, node: Node)
    ensures ThroughUserset(rows, val, node) <==> ScanHolds(RowsOn(rows, node.entity, node.relation), val, None)
  {
    var matching := RowsOn(rows, node.entity, node.relation);
    if ThroughUserset(rows, val, node) {
      var row :| row in matching && row.subject.UsersetSubject? && val(Node(row.subject.entity, row.subject.relation));
      assert val(ScanTarget(row.subject, None));
    }
    if ScanHolds(matching, val, None) {
      var row :| row in matching && row.subject.UsersetSubject? && val(ScanTarget(row.subject, None));
      assert val(Node(row.subject.entity, row.subject.relation));
    }
  }

  lemma TupleFromScan(rows: Rows, val: Valuation, entity: Object, tupleset: string, computed: string)
    ensures TupleHolds(rows, val, entity, tupleset, computed) <==> ScanHolds(RowsOn(rows, entity, tupleset), val, Some(computed))
  {
    var matching := RowsOn(rows, entity, tupleset);
    if TupleHolds(rows, val, entity, tupleset, computed) {
      var row :| row in matching && row.subject.UsersetSubject? && val(Node(row.subject.entity, computed));
      assert val(ScanTarget(row.subject, Some(computed)));
    }
    if ScanHolds(matching, val, Some(computed)) {
      var row :| row in matching && row.subject.UsersetSubject? && val(ScanTarget(row.subject, Some(computed)));
      assert val(Node(row.subject.entity, computed));
    }
  }

  // ---------------------------------------------------------------- memoised evaluation is right

  ghost predicate Relied(memo: Memo, trust: Trust) { memo.Some? && !trust.Untrusted? }

  ghost predicate Reliable(memo: Memo, trust: Trust) { memo.None? || trust.OnAcyclic? }

  /** What callers that rely on the memo must establish, and what evaluation keeps. */
  ghost predicate MemoReady(snapshot: Snapshot, user: User, memo: Memo, trust: Trust) {
    Relied(memo, trust) ==> Justified(snapshot, user, trust) && memo.value.Sound(snapshot, trust.OnAcyclic?)
  }

  /** The memo stays sound, the memo-free answer is tracked where answers may be relied on, and the answer
      reads `holds`. */
  ghost predicate Right(q: Request, memo: Memo, trust: Trust, spec: Outcome, m: Memoised, holds: bool) {
    && m.memo.Some? == memo.Some? && MemoReady(q.snapshot, q.user, m.memo, trust)
    && (Reliable(memo, trust) ==> Tracks(memo.Some?, spec, m.outcome))
    && (Relied(memo, trust) ==> Reads(trust, m.outcome, holds))
  }

  ghost predicate ExprRelies(q: Request, stack: seq<CheckKey>, memo: Memo, trust: Trust, bound: nat, node: Node, e: CompiledExpression) {
    MemoReady(q.snapshot, q.user, memo, trust)
    && (Relied(memo, trust) ==> ExprReady(q.snapshot, trust, bound, node, e) && StackReady(q, trust, stack, bound))
  }

  lemma InsertKeepsSound(snapshot: Snapshot, memo: RequestCheckMemo, exact: bool, key: MemoKey, membership: Membership, depthRequired: nat)
    requires memo.Sound(snapshot, exact)
    requires EntrySound(membership, Member(snapshot, key.user)(Node(key.entity, key.relation)), exact)
    ensures memo.Insert(key, membership, depthRequired).Sound(snapshot, exact)
  {
    hide Member;
  }

  lemma KeyIsRight(q: Request, depth: nat, stack: seq<CheckKey>, memo: Memo, trust: Trust, key: CheckKey, body: Body)
    requires key.user == q.user && MemoReady(q.snapshot, q.user, memo, trust)
    requires Relied(memo, trust) ==>
      && BodyReady(q.snapshot, trust, key, body)
      && StackReady(q, trust, stack, BoundAt(trust, NodeOf(key)) + 1)
      && (stack != [] ==> key == KeyOf(q, NodeOf(key)) && !body.Residuals?)
    ensures Right(q, memo, trust, CheckKeySpec(q, depth, stack, key, body), KeyMemo(q, depth, stack, memo, key, body), Means(q.snapshot, q.user, key, body))
    decreases depth, 0
  {
    hide Member, Justified, BodySpec, BodyMemo, BodyReady, Means;
    if key in stack {
      ActiveIsRight(q, depth, stack, memo, trust, key, body);
    } else if Remembered(memo, stack, key, depth).Some? {
      RememberedIsRight(q, depth, stack, memo, trust, key, body);
    } else if depth > 0 {
      if Relied(memo, trust) && trust.OnAcyclic? {
        EnteredStackAbove(q, stack, key, trust.rank);
      }
      BodyIsRight(q, depth - 1, stack + [key], memo, trust, key, body);
      EnteredIsRight(q, depth, stack, memo, trust, key, body);
    }
  }

  lemma ActiveIsRight(q: Request, depth: nat, stack: seq<CheckKey>, memo: Memo, trust: Trust, key: CheckKey, body: Body)
    requires MemoReady(q.snapshot, q.user, memo, trust) && key in stack
    requires Relied(memo, trust) ==>
      StackReady(q, trust, stack, BoundAt(trust, NodeOf(key)) + 1) && (stack != [] ==> key == KeyOf(q, NodeOf(key)) && !body.Residuals?)
    ensures Right(q, memo, trust, CheckKeySpec(q, depth, stack, key, body), KeyMemo(q, depth, stack, memo, key, body), Means(q.snapshot, q.user, key, body))
  {
    hide Member, Justified;
  }

  lemma RememberedIsRight(q: Request, depth: nat, stack: seq<CheckKey>, memo: Memo, trust: Trust, key: CheckKey, body: Body)
    requires key.user == q.user && MemoReady(q.snapshot, q.user, memo, trust)
    requires key !in stack && Remembered(memo, stack, key, depth).Some?
    requires Relied(memo, trust) ==>
      && BodyReady(q.snapshot, trust, key, body)
      && StackReady(q, trust, stack, BoundAt(trust, NodeOf(key)) + 1)
      && (stack != [] ==> key == KeyOf(q, NodeOf(key)) && !body.Residuals?)
    ensures Right(q, memo, trust, CheckKeySpec(q, depth, stack, key, body), KeyMemo(q, depth, stack, memo, key, body), Means(q.snapshot, q.user, key, body))
  {
    hide Member, Justified, CheckKeySpec;
    if Relied(memo, trust) && trust.OnAcyclic? {
      RememberedIsSpec(q, depth, stack, trust, key, body, Remembered(memo, stack, key, depth).value);
    }
  }

  lemma EnteredIsRight(q: Request, depth: nat, stack: seq<CheckKey>, memo: Memo, trust: Trust, key: CheckKey, body: Body)
    requires key.user == q.user && key !in stack && Remembered(memo, stack, key, depth).None? && depth > 0
    requires Relied(memo, trust) && stack != [] ==> !body.Residuals?
    requires Right(q, memo, trust, BodySpec(q, depth - 1, stack + [key], key, body), BodyMemo(q, depth - 1, stack + [key], memo, key, body),
                   Means(q.snapshot, q.user, key, body))
    ensures Right(q, memo, trust, CheckKeySpec(q, depth, stack, key, body), KeyMemo(q, depth, stack, memo, key, body), Means(q.snapshot, q.user, key, body))
  {
    hide Member, Justified, BodySpec, BodyMemo, RequestCheckMemo.Sound, RequestCheckMemo.Insert, RequestCheckMemo.Get, ResidualsHold;
    var inner := BodyMemo(q, depth - 1, stack + [key], memo, key, body);
    var low := Lowest(Some(depth - 1), inner.low).value;
    if Relied(memo, trust) && stack != [] && inner.outcome.Ok? && inner.outcome.value.IsMemoCacheable() {
      InsertKeepsSound(q.snapshot, inner.memo.value, trust.OnAcyclic?, MemoKeyOf(key), inner.outcome.value, depth - low);
    }
  }

  lemma BodyIsRight(q: Request, depth: nat, stack: seq<CheckKey>, memo: Memo, trust: Trust, key: CheckKey, body: Body)
    requires key.user == q.user && MemoReady(q.snapshot, q.user, memo, trust)
    requires Relied(memo, trust) ==> BodyReady(q.snapshot, trust, key, body) && StackReady(q, trust, stack, BoundAt(trust, NodeOf(key)))
    ensures Right(q, memo, trust, BodySpec(q, depth, stack, key, body), BodyMemo(q, depth, stack, memo, key, body), Means(q.snapshot, q.user, key, body))
    decreases depth, 5
  {
    hide Member, Justified, DefinitionSpec, DefinitionMemo, ThisSpec, ThisMemo, ResidualsSpec, ResidualsMemo;
    if Relied(memo, trust) && !body.Residuals? {
      EnteredNodeReady(q.snapshot, q.user, trust, NodeOf(key));
    }
    var bound := BoundAt(trust, NodeOf(key));
    match body
    case ByName =>
      var found := q.snapshot.schema.resolver.Relation(key.entity.namespace, key.relation);
      if found.Ok? {
        DefinitionIsRight(q, depth, stack, memo, trust, bound, NodeOf(key), found.value);
      }
    case ById(id) =>
      var found := q.snapshot.schema.resolver.ById(id);
      if found.Some? {
        DefinitionIsRight(q, depth, stack, memo, trust, bound, NodeOf(key), found.value);
      }
    case RowsOnly => ThisIsRight(q, depth, stack, memo, trust, bound, NodeOf(key));
    case Prepared(definition) => DefinitionIsRight(q, depth, stack, memo, trust, bound, Node(key.entity, definition.name), definition);
    case Residuals(checks) => ResidualsAreRight(q, depth, stack, memo, trust, bound, key.entity, checks);
  }

  lemma DefinitionIsRight(q: Request, depth: nat, stack: seq<CheckKey>, memo: Memo, trust: Trust, bound: nat, node: Node, definition: RelationDefinition)
    requires MemoReady(q.snapshot, q.user, memo, trust)
    requires Relied(memo, trust) ==> DefinitionReady(q.snapshot, trust, bound, node, definition) && StackReady(q, trust, stack, bound)
    ensures Right(q, memo, trust, DefinitionSpec(q, depth, stack, node.entity, node.relation, definition),
                  DefinitionMemo(q, depth, stack, memo, node.entity, node.relation, definition),
                  DefinitionHolds(q.snapshot, q.user, Member(q.snapshot, q.user), node, definition))
    decreases depth, 4, 0
  {
    hide Member, Justified, ExprSpec, ExprMemo, ThisSpec, ThisMemo, ExprHolds, ThisHolds;
    match definition.compiledRewrite
    case Some(e) => ExprIsRight(q, depth, stack, memo, trust, bound, node, e);
    case None => ThisIsRight(q, depth, stack, memo, trust, bound, node);
  }

  lemma {:induction false} ResidualsAreRight(q: Request, depth: nat, stack: seq<CheckKey>, memo: Memo, trust: Trust, bound: nat, entity: Object, checks: seq<ResidualCheck>)
    requires MemoReady(q.snapshot, q.user, memo, trust)
    requires Relied(memo, trust) ==>
      (forall i :: 0 <= i < |checks| ==> ResidualReady(q.snapshot, trust, bound, entity, checks[i])) && StackReady(q, trust, stack, bound)
    ensures Right(q, memo, trust, ResidualsSpec(q, depth, stack, entity, checks), ResidualsMemo(q, depth, stack, memo, entity, checks),
                  ResidualsHold(q.snapshot, q.user, Member(q.snapshot, q.user), entity, checks))
    decreases depth, 4, |checks|
  {
    hide Member, Justified, ExprSpec, ExprMemo, ExprHolds, StackReady;
    if checks != [] {
      var node, e := Node(entity, checks[0].relationContext), checks[0].expression;
      assert Relied(memo, trust) ==> ResidualReady(q.snapshot, trust, bound, entity, checks[0]);
      ExprIsRight(q, depth, stack, memo, trust, bound, node, e);
      var first := ExprMemo(q, depth, stack, memo, entity, checks[0].relationContext, e);
      if first.outcome.Ok? && (checks[0].expected == ExpectAllowed) == (first.outcome.value == Allowed) {
        ResidualsAreRight(q, depth, stack, first.memo, trust, bound, entity, checks[1..]);
      }
      ResidualsUnfold(q, Member(q.snapshot, q.user), entity, checks);
    }
  }

  lemma ResidualsUnfold(q: Request, val: Valuation, entity: Object, checks: seq<ResidualCheck>)
    requires checks != []
    ensures ResidualsHold(q.snapshot, q.user, val, entity, checks)
            <==> ResidualHolds(q.snapshot, q.user, val, entity, checks[0]) && ResidualsHold(q.snapshot, q.user, val, entity, checks[1..])
  {
    hide ResidualHolds;
    assert forall i :: 0 < i < |checks| ==> checks[i] == checks[1..][i - 1];
  }

  lemma {:induction false} ExprIsRight(q: Request, depth: nat, stack: seq<CheckKey>, memo: Memo, trust: Trust, bound: nat, node: Node, e: CompiledExpression)
    requires ExprRelies(q, stack, memo, trust, bound, node, e)
    ensures Right(q, memo, trust, ExprSpec(q, depth, stack, node.entity, node.relation, e), ExprMemo(q, depth, stack, memo, node.entity, node.relation, e),
                  ExprHolds(q.snapshot, q.user, Member(q.snapshot, q.user), node, e))
    decreases depth, 3, e, 2
  {
    hide Member, Justified, ThisSpec, ThisMemo, TupleSpec, TupleMemo, UnionSpec, UnionMemo, IntersectionSpec, IntersectionMemo, CheckKeySpec, ComputedMemo,
         ThisHolds, TupleHolds, StackReady, ExcludeFirstMemo, BaseFirstMemo, ExcludeThenBase, BaseThenExclude;
    match e
    case This => ThisIsRight(q, depth, stack, memo, trust, bound, node);
    case ComputedUserset(_, _, _) => ComputedIsRight(q, depth, stack, memo, trust, bound, node, e);
    case TupleToUserset(_, id, computed) =>
      var found := q.snapshot.schema.resolver.ById(id);
      if found.Some? {
        TupleIsRight(q, depth, stack, memo, trust, bound, node.entity, found.value.name, computed);
      }
    case Union(children) => UnionIsRight(q, depth, stack, memo, trust, bound, node, children, Denied);
    case Intersection(children) => IntersectionIsRight(q, depth, stack, memo, trust, bound, node, children, Allowed);
    case Exclusion(base, exclude) =>
      if EvaluatesExcludeFirst(exclude) {
        ExcludeFirstIsRight(q, depth, stack, memo, trust, bound, node, base, exclude);
      } else {
        BaseFirstIsRight(q, depth, stack, memo, trust, bound, node, base, exclude);
      }
  }

  lemma ComputedIsRight(q: Request, depth: nat, stack: seq<CheckKey>, memo: Memo, trust: Trust, bound: nat, node: Node, e: CompiledExpression)
    requires e.ComputedUserset? && ExprRelies(q, stack, memo, trust, bound, node, e)
    ensures Right(q, memo, trust, ExprSpec(q, depth, stack, node.entity, node.relation, e), ExprMemo(q, depth, stack, memo, node.entity, node.relation, e),
                  ExprHolds(q.snapshot, q.user, Member(q.snapshot, q.user), node, e))
    decreases depth, 1, 0
  {
    hide Member, Justified, CheckKeySpec, KeyMemo;
    var body := if e.targetHasRewrite then ById(e.relationId) else RowsOnly;
    var key := NestedKey(q.snapshot, node.entity, e.relation, q.user);
    assert key == KeyOf(q, Node(node.entity, e.relation));
    KeyIsRight(q, depth, stack, memo, trust, key, body);
  }

  lemma {:induction false} UnionIsRight(q: Request, depth: nat, stack: seq<CheckKey>, memo: Memo, trust: Trust, bound: nat, node: Node,
                                        children: seq<CompiledExpression>, soFar: Membership)
    requires MemoReady(q.snapshot, q.user, memo, trust) && soFar != Allowed && (Relied(memo, trust) && trust.OnAcyclic? ==> soFar == Denied)
    requires Relied(memo, trust) ==>
      (forall i :: 0 <= i < |children| ==> ExprReady(q.snapshot, trust, bound, node, children[i])) && StackReady(q, trust, stack, bound)
    ensures Right(q, memo, trust, UnionSpec(q, depth, stack, node.entity, node.relation, children, soFar),
                  UnionMemo(q, depth, stack, memo, node.entity, node.relation, children, soFar),
                  exists i :: 0 <= i < |children| && ExprHolds(q.snapshot, q.user, Member(q.snapshot, q.user), node, children[i]))
    decreases depth, 3, children, 0
  {
    hide Member, Justified, ExprSpec, ExprMemo, ExprHolds, StackReady, ExprReady;
    if children != [] {
      assert children[0] in children;
      ExprIsRight(q, depth, stack, memo, trust, bound, node, children[0]);
      var first := ExprMemo(q, depth, stack, memo, node.entity, node.relation, children[0]);
      if first.outcome.Ok? && soFar.Combine(first.outcome.value) != Allowed {
        UnionIsRight(q, depth, stack, first.memo, trust, bound, node, children[1..], soFar.Combine(first.outcome.value));
      }
      SomeUnfolds(q, Member(q.snapshot, q.user), node, children);
    }
  }

  lemma SomeUnfolds(q: Request, val: Valuation, node: Node, children: seq<CompiledExpression>)
    requires children != []
    ensures (exists i :: 0 <= i < |children| && ExprHolds(q.snapshot, q.user, val, node, children[i]))
            <==> ExprHolds(q.snapshot, q.user, val, node, children[0])
                 || exists i :: 0 <= i < |children[1..]| && ExprHolds(q.snapshot, q.user, val, node, children[1..][i])
  {
    hide ExprHolds;
    if i :| 0 <= i < |children| && ExprHolds(q.snapshot, q.user, val, node, children[i]) && i > 0 {
      assert ExprHolds(q.snapshot, q.user, val, node, children[1..][i - 1]);
    }
    if i :| 0 <= i < |children[1..]| && ExprHolds(q.snapshot, q.user, val, node, children[1..][i]) {
      assert ExprHolds(q.snapshot, q.user, val, node, children[i + 1]);
    }
  }

  lemma {:induction false} IntersectionIsRight(q: Request, depth: nat, stack: seq<CheckKey>, memo: Memo, trust: Trust, bound: nat, node: Node,
                                               children: seq<CompiledExpression>, soFar: Membership)
    requires MemoReady(q.snapshot, q.user, memo, trust) && (Relied(memo, trust) && trust.OnAcyclic? ==> soFar == Allowed)
    requires Relied(memo, trust) ==>
      (forall i :: 0 <= i < |children| ==> ExprReady(q.snapshot, trust, bound, node, children[i])) && StackReady(q, trust, stack, bound)
    ensures Right(q, memo, trust, IntersectionSpec(q, depth, stack, node.entity, node.relation, children, soFar),
                  IntersectionMemo(q, depth, stack, memo, node.entity, node.relation, children, soFar),
                  forall i :: 0 <= i < |children| ==> ExprHolds(q.snapshot, q.user, Member(q.snapshot, q.user), node, children[i]))
    decreases depth, 3, children, 0
  {
    hide Member, Justified, ExprSpec, ExprMemo, ExprHolds, StackReady, ExprReady;
    if children != [] {
      assert children[0] in children;
      ExprIsRight(q, depth, stack, memo, trust, bound, node, children[0]);
      var first := ExprMemo(q, depth, stack, memo, node.entity, node.relation, children[0]);
      if first.outcome.Ok? && soFar.Meet(first.outcome.value) != Denied {
        IntersectionIsRight(q, depth, stack, first.memo, trust, bound, node, children[1..], soFar.Meet(first.outcome.value));
      }
      AllUnfold(q, Member(q.snapshot, q.user), node, children);
    }
  }

  lemma AllUnfold(q: Request, val: Valuation, node: Node, children: seq<CompiledExpression>)
    requires children != []
    ensures (forall i :: 0 <= i < |children| ==> ExprHolds(q.snapshot, q.user, val, node, children[i]))
            <==> ExprHolds(q.snapshot, q.user, val, node, children[0])
                 && forall i :: 0 <= i < |children[1..]| ==> ExprHolds(q.snapshot, q.user, val, node, children[1..][i])
  {
    hide ExprHolds;
    assert forall i :: 0 < i < |children| ==> children[i] == children[1..][i - 1];
  }

  lemma {:induction false} ExcludeFirstIsRight(q: Request, depth: nat, stack: seq<CheckKey>, memo: Memo, trust: Trust, bound: nat, node: Node,
                                               base: CompiledExpression, exclude: CompiledExpression)
    requires ExprRelies(q, stack, memo, trust, bound, node, Exclusion(base, exclude))
    ensures Right(q, memo, trust,
                  ExcludeThenBase(ExprSpec(q, depth, stack, node.entity, node.relation, exclude), ExprSpec(q, depth, stack, node.entity, node.relation, base)),
                  ExcludeFirstMemo(q, depth, stack, memo, node.entity, node.relation, base, exclude),
                  ExprHolds(q.snapshot, q.user, Member(q.snapshot, q.user), node, base)
                  && !ExprHolds(q.snapshot, q.user, Member(q.snapshot, q.user), node, exclude))
    decreases depth, 3, Exclusion(base, exclude), 0
  {
    hide Member, Justified, StackReady, ExprSpec, ExprMemo, ExprHolds;
    ExclusionRelies(q, stack, memo, trust, bound, node, base, exclude);
    ExprIsRight(q, depth, stack, memo, trust, bound, node, exclude);
    var first := ExprMemo(q, depth, stack, memo, node.entity, node.relation, exclude);
    if first.outcome.Ok? && first.outcome.value != Allowed {
      ExclusionRelies(q, stack, first.memo, trust, bound, node, base, exclude);
      ExprIsRight(q, depth, stack, first.memo, trust, bound, node, base);
    }
  }

  lemma {:induction false} BaseFirstIsRight(q: Request, depth: nat, stack: seq<CheckKey>, memo: Memo, trust: Trust, bound: nat, node: Node,
                                            base: CompiledExpression, exclude: CompiledExpression)
    requires ExprRelies(q, stack, memo, trust, bound, node, Exclusion(base, exclude))
    ensures Right(q, memo, trust,
                  BaseThenExclude(ExprSpec(q, depth, stack, node.entity, node.relation, base), ExprSpec(q, depth, stack, node.entity, node.relation, exclude)),
                  BaseFirstMemo(q, depth, stack, memo, node.entity, node.relation, base, exclude),
                  ExprHolds(q.snapshot, q.user, Member(q.snapshot, q.user), node, base)
                  && !ExprHolds(q.snapshot, q.user, Member(q.snapshot, q.user), node, exclude))
    decreases depth, 3, Exclusion(base, exclude), 0
  {
    hide Member, Justified, StackReady, ExprSpec, ExprMemo, ExprHolds;
    ExclusionRelies(q, stack, memo, trust, bound, node, base, exclude);
    ExprIsRight(q, depth, stack, memo, trust, bound, node, base);
    var first := ExprMemo(q, depth, stack, memo, node.entity, node.relation, base);
    if first.outcome.Ok? && first.outcome.value != Denied {
      ExclusionRelies(q, stack, first.memo, trust, bound, node, base, exclude);
      ExprIsRight(q, depth, stack, first.memo, trust, bound, node, exclude);
    }
  }

  /** Both operands of an exclusion may be evaluated where the exclusion may, and exclusion-free schemas
      have none. */
  lemma ExclusionRelies(q: Request, stack: seq<CheckKey>, memo: Memo, trust: Trust, bound: nat, node: Node, base: CompiledExpression, exclude: CompiledExpression)
    requires Relied(memo, trust) ==> ExprReady(q.snapshot, trust, bound, node, Exclusion(base, exclude)) && StackReady(q, trust, stack, bound)
    requires MemoReady(q.snapshot, q.user, memo, trust)
    ensures ExprRelies(q, stack, memo, trust, bound, node, base) && ExprRelies(q, stack, memo, trust, bound, node, exclude)
    ensures Relied(memo, trust) ==> trust.OnAcyclic?
  {
    hide StackReady, Justified;
  }

  lemma ThisIsRight(q: Request, depth: nat, stack: seq<CheckKey>, memo: Memo, trust: Trust, bound: nat, node: Node)
    requires MemoReady(q.snapshot, q.user, memo, trust)
    requires Relied(memo, trust) ==> ThisReady(q.snapshot, trust, bound, node) && StackReady(q, trust, stack, bound)
    ensures Right(q, memo, trust, ThisSpec(q, depth, stack, node.entity, node.relation), ThisMemo(q, depth, stack, memo, node.entity, node.relation),
                  ThisHolds(q.snapshot.rows, q.user, Member(q.snapshot, q.user), node))
    decreases depth, 2
  {
    hide Member, Acyclic, WellFormed, ExclusionFree, StackReady, ScanSpec, ScanMemo;
    DirectTestIsSound(q.snapshot.rows, q.user, node);
    ThisFromScan(q.snapshot.rows, q.user, Member(q.snapshot, q.user), node);
    ScanIsRight(q, depth, stack, memo, trust, bound, RowsOn(q.snapshot.rows, node.entity, node.relation), None, 0);
  }

  lemma TupleIsRight(q: Request, depth: nat, stack: seq<CheckKey>, memo: Memo, trust: Trust, bound: nat, entity: Object, tupleset: string, computed: string)
    requires MemoReady(q.snapshot, q.user, memo, trust)
    requires Relied(memo, trust) ==>
      && (forall row :: row in RowsOn(q.snapshot.rows, entity, tupleset) && row.subject.UsersetSubject? ==>
            RanksBelow(trust, bound, Node(row.subject.entity, computed)))
      && StackReady(q, trust, stack, bound)
    ensures Right(q, memo, trust, TupleSpec(q, depth, stack, entity, tupleset, computed), TupleMemo(q, depth, stack, memo, entity, tupleset, computed),
                  TupleHolds(q.snapshot.rows, Member(q.snapshot, q.user), entity, tupleset, computed))
    decreases depth, 2
  {
    hide Member, Justified, StackReady, ScanSpec, ScanMemo;
    TupleFromScan(q.snapshot.rows, Member(q.snapshot, q.user), entity, tupleset, computed);
    ScanIsRight(q, depth, stack, memo, trust, bound, RowsOn(q.snapshot.rows, entity, tupleset), Some(computed), 0);
  }

  lemma {:induction false} ScanIsRight(q: Request, depth: nat, stack: seq<CheckKey>, memo: Memo, trust: Trust, bound: nat,
                                       rows: seq<Relationship>, computed: Option<string>, fanout: nat)
    requires MemoReady(q.snapshot, q.user, memo, trust)
    requires Relied(memo, trust) ==>
      && (forall row :: row in rows && row.subject.UsersetSubject? ==> RanksBelow(trust, bound, ScanTarget(row.subject, computed)))
      && StackReady(q, trust, stack, bound)
    ensures Right(q, memo, trust, ScanSpec(q, depth, stack, rows, computed, fanout), ScanMemo(q, depth, stack, memo, rows, computed, fanout),
                  ScanHolds(rows, Member(q.snapshot, q.user), computed))
    decreases depth, 1, |rows|
  {
    hide Member, Justified, CheckKeySpec, KeyMemo;
    if rows != [] {
      ScanUnfolds(rows, Member(q.snapshot, q.user), computed);
      if !rows[0].subject.UsersetSubject? {
        ScanIsRight(q, depth, stack, memo, trust, bound, rows[1..], computed, fanout);
      } else if fanout + 1 <= q.limits.maxFanoutPerStep {
        var target := ScanTarget(rows[0].subject, computed);
        var key := NestedKey(q.snapshot, target.entity, target.relation, q.user);
        assert key == KeyOf(q, target) && NodeOf(key) == target;
        KeyIsRight(q, depth, stack, memo, trust, key, ByName);
        ScanIsRight(q, depth, stack, KeyMemo(q, depth, stack, memo, key, ByName).memo, trust, bound, rows[1..], computed, fanout + 1);
      }
    }
  }

  lemma ScanUnfolds(rows: seq<Relationship>, val: Valuation, computed: Option<string>)
    requires rows != []
    ensures ScanHolds(rows, val, computed)
            <==> (rows[0].subject.UsersetSubject? && val(ScanTarget(rows[0].subject, computed))) || ScanHolds(rows[1..], val, computed)
  {
    assert forall row :: row in rows <==> row == rows[0] || row in rows[1..];
  }
}
