/** A memo-free check that answers, answers membership: over cyclic data when no rewrite uses
    exclusion, and with exclusion when the data is acyclic. */
module CheckCorrect {
  import opened Vocabulary
  import opened Domain
  import opened Schema
  import opened Semantics
  import opened MembershipAlgebra
  import opened CheckSpec

  ghost predicate Agrees(outcome: Outcome, holds: bool) {
    outcome.Ok? ==> outcome.value == FromBool(holds)
  }

  // ---------------------------------------------------------------- the direct test

  /** The existence test finds a direct relationship whenever there is one. */
  ghost predicate DirectExact(rows: Rows, user: User) {
    forall node: Node ::
      AnyResourceRelationSubject(rows, node.entity, node.relation, FilterOf(user)) <==> DirectMember(rows, user, node)
  }

  lemma DirectTestIsSound(rows: Rows, user: User, node: Node)
    ensures AnyResourceRelationSubject(rows, node.entity, node.relation, FilterOf(user)) ==> DirectMember(rows, user, node)
  {
    var keep := OnResourceRelationSubject(node.entity, node.relation, FilterOf(user));
    QueryIsSound(rows, keep, AtMost(1));
    if AnyResourceRelationSubject(rows, node.entity, node.relation, FilterOf(user)) {
      assert Query(rows, keep, AtMost(1))[0] in Query(rows, keep, AtMost(1));
    }
  }

  /** The direct test misses a member exactly when nothing inserted matches, something live in the
      checkpoint does, and the checkpoint's first match is a tombstoned row. */
  lemma DirectTestMissesExactly(rows: Rows, user: User, node: Node)
    ensures var keep := OnResourceRelationSubject(node.entity, node.relation, FilterOf(user));
            (DirectMember(rows, user, node) && !AnyResourceRelationSubject(rows, node.entity, node.relation, FilterOf(user)))
            <==> && DirectMember(rows, user, node)
                 && Select(rows.inserted, keep) == []
                 && Select(rows.checkpoint, keep) != []
                 && Select(rows.checkpoint, keep)[0] in rows.deleted
  {
    var keep := OnResourceRelationSubject(node.entity, node.relation, FilterOf(user));
    var alive := (relationship: Relationship) => relationship !in rows.deleted;
    var taken := Take(Select(rows.checkpoint, keep), AtMost(1));
    SelectMembers(rows.inserted, keep);
    SelectMembers(rows.checkpoint, keep);
    SelectMembers(taken, alive);
    if DirectMember(rows, user, node) {
      var row :| && Live(rows, row) && row.resource == node.entity && row.relation == node.relation
                 && MatchesSubject(row.subject, FilterOf(user));
      assert keep(row);
      assert Select(rows.inserted, keep) != [] || Select(rows.checkpoint, keep) != [];
      if Select(rows.checkpoint, keep) != [] {
        assert taken == [Select(rows.checkpoint, keep)[0]];
        assert Select(taken[1..], alive) == [];
      }
    }
  }

  /** Two rows that match the filter of a userset subject on one node are the same row. */
  lemma DirectExactForUsersets(rows: Rows, user: User)
    requires user.Userset?
    ensures DirectExact(rows, user)
  {
    forall node: Node
      ensures AnyResourceRelationSubject(rows, node.entity, node.relation, FilterOf(user)) <==> DirectMember(rows, user, node)
    {
      DirectTestIsSound(rows, user, node);
      DirectTestMissesExactly(rows, user, node);
      var keep := OnResourceRelationSubject(node.entity, node.relation, FilterOf(user));
      SelectMembers(rows.inserted, keep);
      SelectMembers(rows.checkpoint, keep);
      if DirectMember(rows, user, node) && Select(rows.inserted, keep) == [] && Select(rows.checkpoint, keep) != [] {
        var row :| && Live(rows, row) && row.resource == node.entity && row.relation == node.relation
                   && MatchesSubject(row.subject, FilterOf(user));
        assert keep(row) && Select(rows.checkpoint, keep)[0] in Select(rows.checkpoint, keep);
        assert row == Select(rows.checkpoint, keep)[0];
      }
    }
  }

  /** No stored subject is a userset of the `user` type. */
  ghost predicate NoUserUsersets(rows: Rows) {
    forall row :: row in rows.inserted || row in rows.checkpoint ==>
      !(row.subject.UsersetSubject? && row.subject.entity.namespace == USER_TYPE)
  }

  lemma DirectExactForUsers(rows: Rows, user: User)
    requires user.UserId?
    requires NoUserUsersets(rows) || rows.deleted == {}
    ensures DirectExact(rows, user)
  {
    forall node: Node
      ensures AnyResourceRelationSubject(rows, node.entity, node.relation, FilterOf(user)) <==> DirectMember(rows, user, node)
    {
      DirectTestIsSound(rows, user, node);
      DirectTestMissesExactly(rows, user, node);
      var keep := OnResourceRelationSubject(node.entity, node.relation, FilterOf(user));
      SelectMembers(rows.inserted, keep);
      SelectMembers(rows.checkpoint, keep);
      if DirectMember(rows, user, node) && Select(rows.inserted, keep) == [] && Select(rows.checkpoint, keep) != [] {
        var row :| && Live(rows, row) && row.resource == node.entity && row.relation == node.relation
                   && MatchesSubject(row.subject, FilterOf(user));
        assert keep(row) && Select(rows.checkpoint, keep)[0] in Select(rows.checkpoint, keep);
        if rows.deleted != {} {
          assert row == Select(rows.checkpoint, keep)[0];
        }
      }
    }
  }

  /** With a `user` namespace and tombstones the direct test can miss a live relationship. */
  lemma DirectTestCanMiss() returns (rows: Rows, user: User, node: Node)
    ensures DirectMember(rows, user, node)
    ensures !AnyResourceRelationSubject(rows, node.entity, node.relation, FilterOf(user))
  {
    var doc, ann := Object("doc", "readme"), Object(USER_TYPE, "ann");
    var revoked := Relationship(doc, "viewer", UsersetSubject(ann, "delegate"));
    var kept := Relationship(doc, "viewer", DirectSubject(ann));
    rows, user, node := Rows([], [revoked, kept], {revoked}), UserId("ann"), Node(doc, "viewer");
    assert Live(rows, kept) && MatchesSubject(kept.subject, FilterOf(user));
    var keep := OnResourceRelationSubject(doc, "viewer", FilterOf(user));
    assert Select(rows.checkpoint, keep)[0] == revoked;
    DirectTestMissesExactly(rows, user, node);
  }

  // ---------------------------------------------------------------- one level of evaluation

  /** The bodies the evaluator pairs with a key: the relation's own definition, however found. */
  ghost predicate BodyFits(schema: CompiledSchema, node: Node, body: Body) {
    match body
    case ByName => true
    case ById(id) =>
      && schema.resolver.Relation(node.entity.namespace, node.relation).Ok?
      && schema.resolver.ById(id) == Some(schema.resolver.Relation(node.entity.namespace, node.relation).value)
    case RowsOnly =>
      && schema.resolver.Relation(node.entity.namespace, node.relation).Ok?
      && schema.resolver.Relation(node.entity.namespace, node.relation).value.compiledRewrite.None?
    case Prepared(definition) => schema.resolver.Relation(node.entity.namespace, node.relation) == Ok(definition)
    case Residuals(_) => false
  }

  function KeyOf(q: Request, node: Node): CheckKey {
    NestedKey(q.snapshot, node.entity, node.relation, q.user)
  }

  /** Checks made at this depth and stack, for nodes ranked below `bound`, agree with `val`. */
  ghost predicate Answers(q: Request, depth: nat, stack: seq<CheckKey>, val: Valuation, rank: Rank, bound: nat) {
    forall node: Node, body: Body :: rank(node) < bound && BodyFits(q.snapshot.schema, node, body) ==>
      Agrees(CheckKeySpec(q, depth, stack, KeyOf(q, node), body), val(node))
  }

  ghost predicate ScanHolds(rows: seq<Relationship>, val: Valuation, computed: Option<string>) {
    exists row :: row in rows && row.subject.UsersetSubject? && val(ScanTarget(row.subject, computed))
  }

  lemma {:induction false} ScanAgrees(q: Request, depth: nat, stack: seq<CheckKey>, val: Valuation, rank: Rank, bound: nat,
                                      rows: seq<Relationship>, computed: Option<string>, fanout: nat)
    requires Answers(q, depth, stack, val, rank, bound)
    requires forall row :: row in rows && row.subject.UsersetSubject? ==> rank(ScanTarget(row.subject, computed)) < bound
    ensures Agrees(ScanSpec(q, depth, stack, rows, computed, fanout), ScanHolds(rows, val, computed))
  {
    if rows != [] {
      var head := rows[0];
      var next := if head.subject.UsersetSubject? then fanout + 1 else fanout;
      ScanAgrees(q, depth, stack, val, rank, bound, rows[1..], computed, next);
      assert forall row :: row in rows <==> row == head || row in rows[1..];
      assert head.subject.UsersetSubject? ==> BodyFits(q.snapshot.schema, ScanTarget(head.subject, computed), ByName);
    }
  }

  lemma ThisAgrees(q: Request, depth: nat, stack: seq<CheckKey>, val: Valuation, rank: Rank, bound: nat, node: Node)
    requires DirectExact(q.snapshot.rows, q.user)
    requires Answers(q, depth, stack, val, rank, bound)
    requires RankedThis(q.snapshot.rows, rank, bound, node)
    ensures Agrees(ThisSpec(q, depth, stack, node.entity, node.relation), ThisHolds(q.snapshot.rows, q.user, val, node))
  {
    var rows := RowsOn(q.snapshot.rows, node.entity, node.relation);
    ScanAgrees(q, depth, stack, val, rank, bound, rows, None, 0);
    assert AnyResourceRelationSubject(q.snapshot.rows, node.entity, node.relation, FilterOf(q.user))
           <==> DirectMember(q.snapshot.rows, q.user, node);
    if ScanHolds(rows, val, None) {
      var row :| row in rows && row.subject.UsersetSubject? && val(ScanTarget(row.subject, None));
      assert val(Node(row.subject.entity, row.subject.relation));
    }
    if ThroughUserset(q.snapshot.rows, val, node) {
      var row :| row in rows && row.subject.UsersetSubject? && val(Node(row.subject.entity, row.subject.relation));
      assert val(ScanTarget(row.subject, None));
    }
  }

  lemma TupleAgrees(q: Request, depth: nat, stack: seq<CheckKey>, val: Valuation, rank: Rank, bound: nat,
                    entity: Object, tupleset: string, computed: string)
    requires Answers(q, depth, stack, val, rank, bound)
    requires forall row :: row in RowsOn(q.snapshot.rows, entity, tupleset) && row.subject.UsersetSubject? ==>
               rank(Node(row.subject.entity, computed)) < bound
    ensures Agrees(TupleSpec(q, depth, stack, entity, tupleset, computed), TupleHolds(q.snapshot.rows, val, entity, tupleset, computed))
  {
    var rows := RowsOn(q.snapshot.rows, entity, tupleset);
    ScanAgrees(q, depth, stack, val, rank, bound, rows, Some(computed), 0);
    if ScanHolds(rows, val, Some(computed)) {
      var row :| row in rows && row.subject.UsersetSubject? && val(ScanTarget(row.subject, Some(computed)));
      assert val(Node(row.subject.entity, computed));
    }
    if TupleHolds(q.snapshot.rows, val, entity, tupleset, computed) {
      var row :| row in rows && row.subject.UsersetSubject? && val(Node(row.subject.entity, computed));
      assert val(ScanTarget(row.subject, Some(computed)));
    }
  }

  /** Short-circuiting, operand order and exclude-first evaluation do not change what an expression means. */
  lemma {:induction false} ExprAgreesWith(q: Request, depth: nat, stack: seq<CheckKey>, val: Valuation, rank: Rank, bound: nat,
                                          node: Node, e: CompiledExpression)
    requires DirectExact(q.snapshot.rows, q.user)
    requires Linked(q.snapshot.schema, node.entity.namespace, e)
    requires Answers(q, depth, stack, val, rank, bound)
    requires RankedExpr(q.snapshot, rank, bound, node, e)
    ensures Agrees(ExprSpec(q, depth, stack, node.entity, node.relation, e), ExprHolds(q.snapshot, q.user, val, node, e))
    decreases e, 1
  {
    match e
    case This => ThisAgrees(q, depth, stack, val, rank, bound, node);
    case ComputedUserset(_, _, _) => ComputedAgrees(q, depth, stack, val, rank, bound, node, e);
    case TupleToUserset(_, id, computed) =>
      TupleAgrees(q, depth, stack, val, rank, bound, node.entity, NameOf(q.snapshot.schema, id), computed);
    case Union(children) => UnionAgrees(q, depth, stack, val, rank, bound, node, children);
    case Intersection(children) => IntersectionAgrees(q, depth, stack, val, rank, bound, node, children);
    case Exclusion(base, exclude) =>
      ExprAgreesWith(q, depth, stack, val, rank, bound, node, base);
      ExprAgreesWith(q, depth, stack, val, rank, bound, node, exclude);
      ExclusionAgrees(q, depth, stack, node, e,
                      ExprHolds(q.snapshot, q.user, val, node, base), ExprHolds(q.snapshot, q.user, val, node, exclude));
  }

  lemma ComputedAgrees(q: Request, depth: nat, stack: seq<CheckKey>, val: Valuation, rank: Rank, bound: nat, node: Node, e: CompiledExpression)
    requires e.ComputedUserset? && Linked(q.snapshot.schema, node.entity.namespace, e)
    requires Answers(q, depth, stack, val, rank, bound)
    requires RankedExpr(q.snapshot, rank, bound, node, e)
    ensures Agrees(ExprSpec(q, depth, stack, node.entity, node.relation, e), ExprHolds(q.snapshot, q.user, val, node, e))
  {
    var target := Node(node.entity, e.relation);
    assert BodyFits(q.snapshot.schema, target, if e.targetHasRewrite then ById(e.relationId) else RowsOnly);
    assert KeyOf(q, target) == NestedKey(q.snapshot, node.entity, e.relation, q.user);
  }

  lemma ExclusionAgrees(q: Request, depth: nat, stack: seq<CheckKey>, node: Node, e: CompiledExpression, base: bool, exclude: bool)
    requires e.Exclusion?
    requires Agrees(ExprSpec(q, depth, stack, node.entity, node.relation, e.base), base)
    requires Agrees(ExprSpec(q, depth, stack, node.entity, node.relation, e.exclude), exclude)
    ensures Agrees(ExprSpec(q, depth, stack, node.entity, node.relation, e), base && !exclude)
  {
  }

  lemma {:induction false} UnionAgrees(q: Request, depth: nat, stack: seq<CheckKey>, val: Valuation, rank: Rank, bound: nat,
                                       node: Node, children: seq<CompiledExpression>)
    requires DirectExact(q.snapshot.rows, q.user)
    requires Answers(q, depth, stack, val, rank, bound)
    requires forall i :: 0 <= i < |children| ==>
      Linked(q.snapshot.schema, node.entity.namespace, children[i]) && RankedExpr(q.snapshot, rank, bound, node, children[i])
    ensures Agrees(UnionSpec(q, depth, stack, node.entity, node.relation, children, Denied),
                   exists i :: 0 <= i < |children| && ExprHolds(q.snapshot, q.user, val, node, children[i]))
    decreases children, 0
  {
    if children != [] {
      ExprAgreesWith(q, depth, stack, val, rank, bound, node, children[0]);
      UnionAgrees(q, depth, stack, val, rank, bound, node, children[1..]);
      if i :| 0 <= i < |children| && ExprHolds(q.snapshot, q.user, val, node, children[i]) {
        assert i > 0 ==> children[1..][i - 1] == children[i];
      }
    }
  }

  lemma {:induction false} IntersectionAgrees(q: Request, depth: nat, stack: seq<CheckKey>, val: Valuation, rank: Rank, bound: nat,
                                              node: Node, children: seq<CompiledExpression>)
    requires DirectExact(q.snapshot.rows, q.user)
    requires Answers(q, depth, stack, val, rank, bound)
    requires forall i :: 0 <= i < |children| ==>
      Linked(q.snapshot.schema, node.entity.namespace, children[i]) && RankedExpr(q.snapshot, rank, bound, node, children[i])
    ensures Agrees(IntersectionSpec(q, depth, stack, node.entity, node.relation, children, Allowed),
                   forall i :: 0 <= i < |children| ==> ExprHolds(q.snapshot, q.user, val, node, children[i]))
    decreases children, 0
  {
    if children != [] {
      ExprAgreesWith(q, depth, stack, val, rank, bound, node, children[0]);
      IntersectionAgrees(q, depth, stack, val, rank, bound, node, children[1..]);
      assert forall i :: 0 < i < |children| ==> children[i] == children[1..][i - 1];
    }
  }

  lemma DefinitionAgrees(q: Request, depth: nat, stack: seq<CheckKey>, val: Valuation, rank: Rank, bound: nat, node: Node, definition: RelationDefinition)
    requires DirectExact(q.snapshot.rows, q.user)
    requires DefinitionLinked(q.snapshot.schema, node.entity.namespace, definition)
    requires Answers(q, depth, stack, val, rank, bound)
    requires RankedDefinition(q.snapshot, rank, bound, node, definition)
    ensures Agrees(DefinitionSpec(q, depth, stack, node.entity, node.relation, definition), DefinitionHolds(q.snapshot, q.user, val, node, definition))
  {
    if definition.compiledRewrite.Some? {
      ExprAgreesWith(q, depth, stack, val, rank, bound, node, definition.compiledRewrite.value);
    } else {
      ThisAgrees(q, depth, stack, val, rank, bound, node);
    }
  }

  ghost predicate RankedNode(snapshot: Snapshot, rank: Rank, bound: nat, node: Node) {
    var found := snapshot.schema.resolver.Relation(node.entity.namespace, node.relation);
    found.Ok? ==> RankedDefinition(snapshot, rank, bound, node, found.value)
  }

  /** Entering a key evaluates the equation of its node. */
  lemma BodyAgreesWith(q: Request, depth: nat, stack: seq<CheckKey>, val: Valuation, rank: Rank, bound: nat, key: CheckKey, body: Body)
    requires WellFormed(q.snapshot.schema) && DirectExact(q.snapshot.rows, q.user)
    requires Answers(q, depth, stack, val, rank, bound)
    requires RankedNode(q.snapshot, rank, bound, Node(key.entity, key.relation))
    requires BodyFits(q.snapshot.schema, Node(key.entity, key.relation), body)
    ensures Agrees(BodySpec(q, depth, stack, key, body), BodyHolds(q.snapshot, q.user, val, Node(key.entity, key.relation)))
  {
    var node := Node(key.entity, key.relation);
    var found := q.snapshot.schema.resolver.Relation(key.entity.namespace, key.relation);
    if found.Ok? {
      FoundIsLinked(q.snapshot.schema, key.entity.namespace, key.relation);
      DefinitionAgrees(q, depth, stack, val, rank, bound, node, found.value);
    }
  }

  // ---------------------------------------------------------------- no exclusion, any data

  /** The nodes an active stack answers "denied" for. */
  ghost function Forced(q: Request, stack: seq<CheckKey>): set<Node> {
    set key | key in stack && key == KeyOf(q, Node(key.entity, key.relation)) :: Node(key.entity, key.relation)
  }

  lemma ForcedIsActive(q: Request, stack: seq<CheckKey>, node: Node)
    ensures node in Forced(q, stack) <==> KeyOf(q, node) in stack
  {
    if KeyOf(q, node) in stack {
      var key := KeyOf(q, node);
      assert key in stack && key == KeyOf(q, Node(key.entity, key.relation));
    }
  }

  lemma ForcedGrows(q: Request, stack: seq<CheckKey>, key: CheckKey)
    ensures Forced(q, stack + [key]) == Forced(q, stack) +
      if key == KeyOf(q, Node(key.entity, key.relation)) then {Node(key.entity, key.relation)} else {}
  {
    assert forall k :: k in stack + [key] <==> k in stack || k == key;
  }

  ghost function Flat(): Rank { (node: Node) => 0 }

  lemma {:induction false} ExprIsFlat(snapshot: Snapshot, node: Node, e: CompiledExpression)
    ensures RankedExpr(snapshot, Flat(), 1, node, e)
  {
    match e
    case Union(children) => forall i | 0 <= i < |children| { ExprIsFlat(snapshot, node, children[i]); }
    case Intersection(children) => forall i | 0 <= i < |children| { ExprIsFlat(snapshot, node, children[i]); }
    case Exclusion(base, exclude) => ExprIsFlat(snapshot, node, base); ExprIsFlat(snapshot, node, exclude);
    case _ =>
  }

  lemma NodeIsFlat(snapshot: Snapshot, node: Node)
    ensures RankedNode(snapshot, Flat(), 1, node)
  {
    var found := snapshot.schema.resolver.Relation(node.entity.namespace, node.relation);
    if found.Ok? && found.value.compiledRewrite.Some? {
      ExprIsFlat(snapshot, node, found.value.compiledRewrite.value);
    }
  }

  ghost predicate PositiveRequest(q: Request) {
    WellFormed(q.snapshot.schema) && ExclusionFree(q.snapshot.schema) && DirectExact(q.snapshot.rows, q.user)
  }

  /** Whatever is active, a check answers the least solution with the active nodes taken empty. */
  lemma {:induction false} PositiveAnswers(q: Request, depth: nat, stack: seq<CheckKey>)
    requires PositiveRequest(q)
    ensures Answers(q, depth, stack, Least(q.snapshot, q.user, Forced(q, stack)), Flat(), 1)
    decreases depth
  {
    forall node: Node, body: Body | BodyFits(q.snapshot.schema, node, body)
      ensures Agrees(CheckKeySpec(q, depth, stack, KeyOf(q, node), body), Least(q.snapshot, q.user, Forced(q, stack))(node))
    {
      ForcedIsActive(q, stack, node);
      if KeyOf(q, node) in stack {
        LeastIsFixpoint(q.snapshot, q.user, Forced(q, stack), node);
      } else if depth > 0 {
        PositiveAnswers(q, depth - 1, stack + [KeyOf(q, node)]);
        PositiveEntered(q, depth - 1, stack, node, body);
      }
    }
  }

  lemma PositiveEntered(q: Request, depth: nat, stack: seq<CheckKey>, node: Node, body: Body)
    requires PositiveRequest(q)
    requires BodyFits(q.snapshot.schema, node, body)
    requires KeyOf(q, node) !in stack
    requires Answers(q, depth, stack + [KeyOf(q, node)], Least(q.snapshot, q.user, Forced(q, stack + [KeyOf(q, node)])), Flat(), 1)
    ensures Agrees(BodySpec(q, depth, stack + [KeyOf(q, node)], KeyOf(q, node), body), Least(q.snapshot, q.user, Forced(q, stack))(node))
  {
    var key := KeyOf(q, node);
    ForcedIsActive(q, stack, node);
    ForcedGrows(q, stack, key);
    NodeIsFlat(q.snapshot, node);
    BodyAgreesWith(q, depth, stack + [key], Least(q.snapshot, q.user, Forced(q, stack + [key])), Flat(), 1, key, body);
    BlockingSelf(q.snapshot, q.user, Forced(q, stack), node);
  }

  /** The answers given while some usersets are active, and hence what is remembered of them, are all right
      exactly if the user is in none of these usersets. */
  lemma ActiveAnswersAreRight(q: Request, depth: nat, stack: seq<CheckKey>)
    requires PositiveRequest(q)
    ensures Answers(q, depth, stack, Least(q.snapshot, q.user, {}), Flat(), 1)
            <==> forall node :: node in Forced(q, stack) ==> !Least(q.snapshot, q.user, {})(node)
  {
    hide Least, WellFormed, ExclusionFree, DirectExact, BodySpec;
    forall node | node in Forced(q, stack) && Least(q.snapshot, q.user, {})(node)
      ensures !Answers(q, depth, stack, Least(q.snapshot, q.user, {}), Flat(), 1)
    {
      ForcedIsActive(q, stack, node);
      assert CheckKeySpec(q, depth, stack, KeyOf(q, node), ByName) == Ok(Denied) && BodyFits(q.snapshot.schema, node, ByName);
    }
    BlockingStrangers(q.snapshot, q.user, Forced(q, stack));
    PositiveAnswers(q, depth, stack);
  }

  // ---------------------------------------------------------------- acyclic data

  ghost predicate AcyclicRequest(q: Request, rank: Rank) {
    WellFormed(q.snapshot.schema) && Acyclic(q.snapshot, rank) && DirectExact(q.snapshot.rows, q.user)
  }

  /** Nothing active ranks below `bound`. */
  ghost predicate StackAbove(q: Request, stack: seq<CheckKey>, rank: Rank, bound: nat) {
    forall node: Node :: KeyOf(q, node) in stack ==> rank(node) >= bound
  }

  lemma {:induction false} AcyclicAnswers(q: Request, depth: nat, stack: seq<CheckKey>, rank: Rank, bound: nat)
    requires AcyclicRequest(q, rank)
    requires StackAbove(q, stack, rank, bound)
    ensures Answers(q, depth, stack, Member(q.snapshot, q.user), rank, bound)
    decreases depth
  {
    hide Member, BodySpec, BodyHolds, WellFormed, DirectExact, BodyFits;
    forall node: Node, body: Body | rank(node) < bound && BodyFits(q.snapshot.schema, node, body)
      ensures Agrees(CheckKeySpec(q, depth, stack, KeyOf(q, node), body), Member(q.snapshot, q.user)(node))
    {
      if depth > 0 {
        AcyclicAnswers(q, depth - 1, stack + [KeyOf(q, node)], rank, rank(node));
        BodyAgreesWith(q, depth - 1, stack + [KeyOf(q, node)], Member(q.snapshot, q.user), rank, rank(node), KeyOf(q, node), body);
        AcyclicMemberEquation(q.snapshot, q.user, rank, node);
      }
    }
  }

  // ---------------------------------------------------------------- requests

  /** A request whose key is no nested key: its node may be unfolded once more. */
  lemma PublicRoot(q: Request, depth: nat, node: Node, key: CheckKey)
    requires PositiveRequest(q)
    requires key != KeyOf(q, node) && Node(key.entity, key.relation) == node && key.user == q.user
    ensures Agrees(BodySpec(q, depth, [key], key, ByName), Least(q.snapshot, q.user, {})(node))
  {
    assert Forced(q, [key]) == {};
    PositiveAnswers(q, depth, [key]);
    NodeIsFlat(q.snapshot, node);
    BodyAgreesWith(q, depth, [key], Least(q.snapshot, q.user, {}), Flat(), 1, key, ByName);
    LeastIsFixpoint(q.snapshot, q.user, {}, node);
  }

  lemma NestedRoot(q: Request, depth: nat, node: Node)
    requires PositiveRequest(q)
    ensures Agrees(BodySpec(q, depth, [KeyOf(q, node)], KeyOf(q, node), ByName), Least(q.snapshot, q.user, {})(node))
  {
    assert [] + [KeyOf(q, node)] == [KeyOf(q, node)];
    assert Forced(q, []) == {};
    PositiveAnswers(q, depth, [KeyOf(q, node)]);
    PositiveEntered(q, depth, [], node, ByName);
  }

  /** On an exclusion-free schema, whatever cycles the data has, an answer is "allowed" exactly for
      the members of the least solution, although every active key is answered "denied". */
  lemma PositiveCheckIsLeast(q: Request, entity: Object, relation: string)
    requires PositiveRequest(q)
    ensures Agrees(RootSpec(q, entity, relation), Least(q.snapshot, q.user, {})(Node(entity, relation)))
  {
    var key := RootKey(q.snapshot, entity, relation, q.user);
    var node := Node(entity, relation);
    if q.limits.maxDepth > 0 {
      assert [] + [key] == [key];
      if key == KeyOf(q, node) {
        NestedRoot(q, q.limits.maxDepth - 1, node);
      } else {
        PublicRoot(q, q.limits.maxDepth - 1, node, key);
      }
    }
  }

  /** On acyclic data, exclusion included, an answer is the unique solution of the equations. */
  lemma AcyclicCheckIsMember(q: Request, rank: Rank, entity: Object, relation: string)
    requires AcyclicRequest(q, rank)
    ensures Agrees(RootSpec(q, entity, relation), Member(q.snapshot, q.user)(Node(entity, relation)))
  {
    var key := RootKey(q.snapshot, entity, relation, q.user);
    var node := Node(entity, relation);
    if q.limits.maxDepth > 0 {
      assert [] + [key] == [key];
      AcyclicAnswers(q, q.limits.maxDepth - 1, [key], rank, rank(node));
      BodyAgreesWith(q, q.limits.maxDepth - 1, [key], Member(q.snapshot, q.user), rank, rank(node), key, ByName);
      AcyclicMemberEquation(q.snapshot, q.user, rank, node);
    }
  }

  /** Both readings at once: every answer of a memo-free check is declarative membership. */
  lemma CheckIsMembership(q: Request, entity: Object, relation: string)
    requires WellFormed(q.snapshot.schema) && Regular(q.snapshot) && DirectExact(q.snapshot.rows, q.user)
    ensures Agrees(RootSpec(q, entity, relation), Member(q.snapshot, q.user)(Node(entity, relation)))
  {
    if ExclusionFree(q.snapshot.schema) {
      PositiveCheckIsLeast(q, entity, relation);
      MemberOfPositive(q.snapshot, q.user, Node(entity, relation));
    } else {
      var rank :| Acyclic(q.snapshot, rank);
      AcyclicCheckIsMember(q, rank, entity, relation);
    }
  }

  // ---------------------------------------------------------------- when a check answers

  function UsersetCount(rows: seq<Relationship>): nat {
    if rows == [] then 0 else UsersetCount(rows[1..]) + if rows[0].subject.UsersetSubject? then 1 else 0
  }

  ghost function Inside(universe: set<Node>): Rank { (node: Node) => if node in universe then 0 else 1 }

  /** `universe` holds every userset a check inside it may consult, and each of them can be
      evaluated: it is defined, well named, and its rows fit the fanout limit. */
  ghost predicate SelfContained(q: Request, universe: set<Node>) {
    && ValidUser(q.user)
    && (forall entity, relation :: UsersetCount(RowsOn(q.snapshot.rows, entity, relation)) <= q.limits.maxFanoutPerStep)
    && forall node :: node in universe ==>
         && ValidObject(node.entity) && ValidTypeName(node.relation)
         && q.snapshot.schema.resolver.Relation(node.entity.namespace, node.relation).Ok?
         && RankedNode(q.snapshot, Inside(universe), 1, node)
  }

  /** Checks made at this depth and stack, inside `universe`, answer. */
  ghost predicate Defined(q: Request, depth: nat, stack: seq<CheckKey>, universe: set<Node>) {
    forall node: Node, body: Body :: node in universe && BodyFits(q.snapshot.schema, node, body) ==>
      CheckKeySpec(q, depth, stack, KeyOf(q, node), body).Ok?
  }

  lemma {:induction false} ScanAnswers(q: Request, depth: nat, stack: seq<CheckKey>, universe: set<Node>,
                                       rows: seq<Relationship>, computed: Option<string>, fanout: nat)
    requires Defined(q, depth, stack, universe)
    requires fanout + UsersetCount(rows) <= q.limits.maxFanoutPerStep
    requires forall row :: row in rows && row.subject.UsersetSubject? ==> ScanTarget(row.subject, computed) in universe
    ensures ScanSpec(q, depth, stack, rows, computed, fanout).Ok?
  {
    if rows != [] {
      var head := rows[0];
      assert head.subject.UsersetSubject? ==> BodyFits(q.snapshot.schema, ScanTarget(head.subject, computed), ByName);
      ScanAnswers(q, depth, stack, universe, rows[1..], computed, if head.subject.UsersetSubject? then fanout + 1 else fanout);
    }
  }

  lemma ThisAnswers(q: Request, depth: nat, stack: seq<CheckKey>, universe: set<Node>, node: Node)
    requires SelfContained(q, universe) && Defined(q, depth, stack, universe)
    requires ValidObject(node.entity) && RankedThis(q.snapshot.rows, Inside(universe), 1, node)
    ensures ThisSpec(q, depth, stack, node.entity, node.relation).Ok?
  {
    var rows := RowsOn(q.snapshot.rows, node.entity, node.relation);
    forall row | row in rows && row.subject.UsersetSubject? ensures ScanTarget(row.subject, None) in universe {
      assert Inside(universe)(Node(row.subject.entity, row.subject.relation)) < 1;
    }
    ScanAnswers(q, depth, stack, universe, rows, None, 0);
  }

  lemma TupleAnswers(q: Request, depth: nat, stack: seq<CheckKey>, universe: set<Node>, node: Node, tupleset: string, computed: string)
    requires SelfContained(q, universe) && Defined(q, depth, stack, universe)
    requires ValidObject(node.entity)
    requires forall row :: row in RowsOn(q.snapshot.rows, node.entity, tupleset) && row.subject.UsersetSubject? ==>
               Inside(universe)(Node(row.subject.entity, computed)) < 1
    ensures TupleSpec(q, depth, stack, node.entity, tupleset, computed).Ok?
  {
    ScanAnswers(q, depth, stack, universe, RowsOn(q.snapshot.rows, node.entity, tupleset), Some(computed), 0);
  }

  lemma {:induction false} ExprAnswers(q: Request, depth: nat, stack: seq<CheckKey>, universe: set<Node>, node: Node, e: CompiledExpression)
    requires SelfContained(q, universe) && Defined(q, depth, stack, universe)
    requires ValidObject(node.entity) && Linked(q.snapshot.schema, node.entity.namespace, e)
    requires RankedExpr(q.snapshot, Inside(universe), 1, node, e)
    ensures ExprSpec(q, depth, stack, node.entity, node.relation, e).Ok?
    decreases e, 1
  {
    match e
    case This => ThisAnswers(q, depth, stack, universe, node);
    case ComputedUserset(relation, id, targetHasRewrite) =>
      assert BodyFits(q.snapshot.schema, Node(node.entity, relation), if targetHasRewrite then ById(id) else RowsOnly);
      assert KeyOf(q, Node(node.entity, relation)) == NestedKey(q.snapshot, node.entity, relation, q.user);
    case TupleToUserset(_, id, computed) =>
      TupleAnswers(q, depth, stack, universe, node, NameOf(q.snapshot.schema, id), computed);
    case Union(children) => ChildrenAnswer(q, depth, stack, universe, node, children, Denied);
    case Intersection(children) => ChildrenAnswer(q, depth, stack, universe, node, children, Allowed);
    case Exclusion(base, exclude) =>
      ExprAnswers(q, depth, stack, universe, node, base);
      ExprAnswers(q, depth, stack, universe, node, exclude);
  }

  lemma {:induction false} ChildrenAnswer(q: Request, depth: nat, stack: seq<CheckKey>, universe: set<Node>, node: Node,
                                          children: seq<CompiledExpression>, soFar: Membership)
    requires SelfContained(q, universe) && Defined(q, depth, stack, universe)
    requires ValidObject(node.entity)
    requires forall i :: 0 <= i < |children| ==>
      Linked(q.snapshot.schema, node.entity.namespace, children[i]) && RankedExpr(q.snapshot, Inside(universe), 1, node, children[i])
    ensures UnionSpec(q, depth, stack, node.entity, node.relation, children, soFar).Ok?
    ensures IntersectionSpec(q, depth, stack, node.entity, node.relation, children, soFar).Ok?
    decreases children, 0
  {
    if children != [] {
      ExprAnswers(q, depth, stack, universe, node, children[0]);
      var result := ExprSpec(q, depth, stack, node.entity, node.relation, children[0]).value;
      ChildrenAnswer(q, depth, stack, universe, node, children[1..], soFar.Combine(result));
      ChildrenAnswer(q, depth, stack, universe, node, children[1..], soFar.Meet(result));
    }
  }

  lemma BodyAnswers(q: Request, depth: nat, stack: seq<CheckKey>, universe: set<Node>, key: CheckKey, body: Body)
    requires WellFormed(q.snapshot.schema) && SelfContained(q, universe) && Defined(q, depth, stack, universe)
    requires Node(key.entity, key.relation) in universe
    requires BodyFits(q.snapshot.schema, Node(key.entity, key.relation), body)
    ensures BodySpec(q, depth, stack, key, body).Ok?
  {
    var node := Node(key.entity, key.relation);
    FoundIsLinked(q.snapshot.schema, key.entity.namespace, key.relation);
    var definition := q.snapshot.schema.resolver.Relation(key.entity.namespace, key.relation).value;
    if definition.compiledRewrite.Some? {
      ExprAnswers(q, depth, stack, universe, node, definition.compiledRewrite.value);
    } else {
      ThisAnswers(q, depth, stack, universe, node);
    }
  }

  ghost function Unused(q: Request, stack: seq<CheckKey>, universe: set<Node>): nat {
    |universe - Forced(q, stack)|
  }

  lemma EnteringUsesOne(q: Request, stack: seq<CheckKey>, universe: set<Node>, node: Node)
    requires node in universe && node !in Forced(q, stack)
    ensures Unused(q, stack + [KeyOf(q, node)], universe) + 1 == Unused(q, stack, universe)
  {
    ForcedGrows(q, stack, KeyOf(q, node));
    assert universe - Forced(q, stack + [KeyOf(q, node)]) == universe - Forced(q, stack) - {node};
  }

  /** Each entered key is a new node of the universe, so depth `|universe|` is never exceeded. */
  lemma {:induction false} DepthSuffices(q: Request, depth: nat, stack: seq<CheckKey>, universe: set<Node>)
    requires WellFormed(q.snapshot.schema) && SelfContained(q, universe)
    requires depth >= Unused(q, stack, universe)
    ensures Defined(q, depth, stack, universe)
    decreases depth
  {
    hide SelfContained, WellFormed, Unused, BodySpec;
    forall node: Node, body: Body | node in universe && BodyFits(q.snapshot.schema, node, body)
      ensures CheckKeySpec(q, depth, stack, KeyOf(q, node), body).Ok?
    {
      ForcedIsActive(q, stack, node);
      if KeyOf(q, node) !in stack {
        EnteringUsesOne(q, stack, universe, node);
        DepthSuffices(q, depth - 1, stack + [KeyOf(q, node)], universe);
        BodyAnswers(q, depth - 1, stack + [KeyOf(q, node)], universe, KeyOf(q, node), body);
      }
    }
  }

  lemma UnusedIsBounded(q: Request, stack: seq<CheckKey>, universe: set<Node>)
    ensures Unused(q, stack, universe) <= |universe|
  {
    SubsetIsSmaller(universe - Forced(q, stack), universe);
  }

  lemma EnteredRootAnswers(q: Request, depth: nat, universe: set<Node>, key: CheckKey)
    requires WellFormed(q.snapshot.schema) && SelfContained(q, universe)
    requires Node(key.entity, key.relation) in universe
    requires depth >= |universe|
    ensures BodySpec(q, depth, [key], key, ByName).Ok?
  {
    UnusedIsBounded(q, [key], universe);
    DepthSuffices(q, depth, [key], universe);
    BodyAnswers(q, depth, [key], universe, key, ByName);
  }

  /** A check fails only for lack of depth, fanout, definitions or valid names: over a
      self-contained universe, one unit of depth per userset plus one for the root always suffices. */
  lemma CheckAnswers(q: Request, universe: set<Node>, entity: Object, relation: string)
    requires WellFormed(q.snapshot.schema) && SelfContained(q, universe)
    requires Node(entity, relation) in universe
    requires q.limits.maxDepth > |universe|
    ensures RootSpec(q, entity, relation).Ok?
  {
    var key := RootKey(q.snapshot, entity, relation, q.user);
    EnteredRootAnswers(q, q.limits.maxDepth - 1, universe, key);
    assert [] + [key] == [key];
  }
}
