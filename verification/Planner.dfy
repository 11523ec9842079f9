/** The lookup planner: from a permission's rewrite, which relations can produce it, and what is
    left to verify once a direct row on one of them is known. */
module Planner {
  import opened Vocabulary
  import opened Schema
  import opened Semantics
  import opened CheckSpec
  import opened RelationReach
  import opened MemoCorrect

  datatype Verification =
    | FullRoot
    | ProvenWithoutCheck
    | Residual(checks: seq<ResidualCheck>)
  {
    function WithResidual(check: ResidualCheck): Verification {
      match this
      case FullRoot => FullRoot
      case ProvenWithoutCheck => Residual([check])
      case Residual(checks) => Residual(checks + [check])
    }

    function UnionMerge(other: Verification): Verification {
      if ProvenWithoutCheck? || other.ProvenWithoutCheck? then ProvenWithoutCheck
      else if Residual? && this == other then this
      else FullRoot
    }
  }

  datatype Rule = Rule(relation: string, verification: Verification)

  datatype ProducerPlan = ProducerPlan(relations: seq<string>, rules: seq<Rule>)

  type Collected = Result<Option<seq<Rule>>, EvaluationError>

  function SchemaIds(schema: CompiledSchema): set<RelationId> {
    var definitions := schema.resolver.definitions;
    set i, j | 0 <= i < |definitions| && 0 <= j < |definitions[i].relations| :: RelationId(i, j)
  }

  /** Adds `rule` to an already merged list. */
  function MergeOne(merged: seq<Rule>, rule: Rule): seq<Rule> {
    if merged == [] then [rule]
    else if merged[0].relation == rule.relation
      then [Rule(rule.relation, merged[0].verification.UnionMerge(rule.verification))] + merged[1..]
    else [merged[0]] + MergeOne(merged[1..], rule)
  }

  function MergeRules(merged: seq<Rule>, rules: seq<Rule>): seq<Rule>
    decreases |rules|
  {
    if rules == [] then merged else MergeRules(MergeOne(merged, rules[0]), rules[1..])
  }

  function Guarded(rules: seq<Rule>, check: ResidualCheck): seq<Rule> {
    seq(|rules|, i requires 0 <= i < |rules| => Rule(rules[i].relation, rules[i].verification.WithResidual(check)))
  }

  function GuardedByOthers(rules: seq<Rule>, current: string, guards: seq<CompiledExpression>, from: nat, seed: nat): seq<Rule>
    requires from <= |guards|
    decreases |guards| - from
  {
    if from == |guards| then rules
    else if from == seed then GuardedByOthers(rules, current, guards, from + 1, seed)
    else GuardedByOthers(Guarded(rules, ResidualCheck(current, guards[from], ExpectAllowed)), current, guards, from + 1, seed)
  }

  predicate AnyFullRoot(rules: seq<Rule>) {
    exists i :: 0 <= i < |rules| && rules[i].verification.FullRoot?
  }

  /** Rules for a whole relation. A relation already being collected yields no plan. */
  function CollectRelation(schema: CompiledSchema, id: RelationId, definition: RelationDefinition, visiting: set<RelationId>): Collected
    requires id in SchemaIds(schema)
    decreases |SchemaIds(schema) - visiting|, 0
  {
    if id in visiting then Ok(None)
    else
      assert SchemaIds(schema) - (visiting + {id}) == SchemaIds(schema) - visiting - {id};
      var rules :-
        match definition.compiledRewrite
        case Some(e) => CollectExpression(schema, definition.name, e, visiting + {id})
        case None => Ok(Some([Rule(definition.name, ProvenWithoutCheck)]));
      match rules
      case None => Ok(None)
      case Some(found) => Ok(Some(MergeRules([], found)))
  }

  function CollectExpression(schema: CompiledSchema, current: string, e: CompiledExpression, visiting: set<RelationId>): Collected
    decreases |SchemaIds(schema) - visiting|, 1, e, 0
  {
    match e
    case This => Ok(Some([Rule(current, ProvenWithoutCheck)]))
    case ComputedUserset(relation, id, targetHasRewrite) =>
      if !targetHasRewrite then Ok(Some([Rule(relation, ProvenWithoutCheck)]))
      else
        (match schema.resolver.ById(id)
         case None => Err(UnresolvedRelationId)
         case Some(definition) => CollectRelation(schema, id, definition, visiting))
    case TupleToUserset(tupleset, _, _) => Ok(Some([Rule(tupleset, FullRoot)]))
    case Union(children) => CollectUnion(schema, current, children, visiting)
    case Intersection(children) => CollectIntersection(schema, current, children, 0, visiting)
    case Exclusion(base, exclude) =>
      var rules :- CollectExpression(schema, current, base, visiting);
      match rules
      case None => Ok(None)
      case Some(found) => Ok(Some(Guarded(found, ResidualCheck(current, exclude, ExpectDenied))))
  }

  function CollectUnion(schema: CompiledSchema, current: string, children: seq<CompiledExpression>, visiting: set<RelationId>): Collected
    decreases |SchemaIds(schema) - visiting|, 1, children, 0
  {
    if children == [] then Ok(Some([]))
    else
      var first :- CollectExpression(schema, current, children[0], visiting);
      if first.None? then Ok(None)
      else
        var rest :- CollectUnion(schema, current, children[1..], visiting);
        if rest.None? then Ok(None) else Ok(Some(first.value + rest.value))
  }

  /** The first operand that can be collected without a full check seeds the plan; the others guard it. */
  function CollectIntersection(schema: CompiledSchema, current: string, children: seq<CompiledExpression>, seed: nat, visiting: set<RelationId>): Collected
    requires seed <= |children|
    decreases |SchemaIds(schema) - visiting|, 1, children, |children| - seed
  {
    if seed == |children| then Ok(None)
    else
      var rules :- CollectExpression(schema, current, children[seed], visiting);
      if rules.None? || AnyFullRoot(rules.value) then CollectIntersection(schema, current, children, seed + 1, visiting)
      else Ok(Some(GuardedByOthers(rules.value, current, children, 0, seed)))
  }

  function DistinctRelationNames(rules: seq<Rule>, soFar: seq<string>): seq<string> {
    if rules == [] then soFar
    else if rules[0].relation in soFar then DistinctRelationNames(rules[1..], soFar)
    else DistinctRelationNames(rules[1..], soFar + [rules[0].relation])
  }

  function LookupProducerPlan(schema: CompiledSchema, resourceType: string, permission: string): Result<Option<ProducerPlan>, EvaluationError> {
    match schema.resolver.IdOf(resourceType, permission)
    case Err(error) => Err(SchemaFailure(error))
    case Ok(id) =>
      match schema.resolver.ById(id)
      case None => Err(UnresolvedRelationId)
      case Some(definition) =>
        var rules :- CollectRelation(schema, id, definition, {});
        if rules.None? || rules.value == [] then Ok(None)
        else Ok(Some(ProducerPlan(DistinctRelationNames(rules.value, []), rules.value)))
  }

  // ---------------------------------------------------------------- what a plan promises

  /** A row that can make its resource a member: it names the subject, a userset the subject belongs to,
      or an object on which the subject has a relation that some rewrite takes over. */
  ghost predicate Contributes(snapshot: Snapshot, user: User, val: Valuation, row: Relationship) {
    || MatchesSubject(row.subject, FilterOf(user))
    || (row.subject.UsersetSubject? && val(Node(row.subject.entity, row.subject.relation)))
    || (row.subject.UsersetSubject? && exists computed ::
          TakesOver(snapshot.schema, row, computed) && val(Node(row.subject.entity, computed)))
  }

  /** Some relation of the row's resource takes `computed` over through the row. */
  ghost predicate TakesOver(schema: CompiledSchema, row: Relationship, computed: string) {
    exists owner :: TupleIn(schema, row.resource.namespace, owner, row.relation, computed)
  }

  ghost predicate Produces(snapshot: Snapshot, user: User, val: Valuation, entity: Object, relation: string) {
    exists row :: row in RowsOn(snapshot.rows, entity, relation) && Contributes(snapshot, user, val, row)
  }

  /** What is known once a rule's verification has passed. */
  ghost predicate Verified(snapshot: Snapshot, user: User, val: Valuation, entity: Object, verification: Verification) {
    match verification
    case FullRoot => false
    case ProvenWithoutCheck => true
    case Residual(checks) => ResidualsHold(snapshot, user, val, entity, checks)
  }

  /** Sufficient: a direct row on the rule's relation plus its verification give membership. */
  ghost predicate Sufficient(snapshot: Snapshot, user: User, val: Valuation, entity: Object, rule: Rule, holds: bool) {
    DirectMember(snapshot.rows, user, Node(entity, rule.relation)) && Verified(snapshot, user, val, entity, rule.verification) ==> holds
  }

  ghost predicate AllSufficient(snapshot: Snapshot, user: User, val: Valuation, entity: Object, rules: seq<Rule>, holds: bool) {
    forall i :: 0 <= i < |rules| ==> Sufficient(snapshot, user, val, entity, rules[i], holds)
  }

  /** Nothing is known to stand against the rule. */
  ghost predicate Passes(snapshot: Snapshot, user: User, val: Valuation, entity: Object, verification: Verification) {
    verification.Residual? ==> ResidualsHold(snapshot, user, val, entity, verification.checks)
  }

  ghost predicate Possible(snapshot: Snapshot, user: User, val: Valuation, entity: Object, rule: Rule) {
    Passes(snapshot, user, val, entity, rule.verification) && Produces(snapshot, user, val, entity, rule.relation)
  }

  /** Necessary: every member has a contributing row on the relation of a rule whose residuals hold. */
  ghost predicate Covering(snapshot: Snapshot, user: User, val: Valuation, entity: Object, rules: seq<Rule>, holds: bool) {
    holds ==> AnyPossible(snapshot, user, val, entity, rules)
  }

  ghost predicate PlanCorrect(snapshot: Snapshot, user: User, val: Valuation, entity: Object, rules: seq<Rule>, holds: bool) {
    AllSufficient(snapshot, user, val, entity, rules, holds) && Covering(snapshot, user, val, entity, rules, holds)
  }

  lemma GuardedIsCorrect(snapshot: Snapshot, user: User, val: Valuation, entity: Object, rules: seq<Rule>, check: ResidualCheck, holds: bool)
    requires PlanCorrect(snapshot, user, val, entity, rules, holds)
    ensures PlanCorrect(snapshot, user, val, entity, Guarded(rules, check), holds && ResidualHolds(snapshot, user, val, entity, check))
  {
    hide Produces;
    var guarded := Guarded(rules, check);
    forall i | 0 <= i < |guarded|
      ensures Sufficient(snapshot, user, val, entity, guarded[i], holds && ResidualHolds(snapshot, user, val, entity, check))
    {
      assert Sufficient(snapshot, user, val, entity, rules[i], holds);
      if Verified(snapshot, user, val, entity, guarded[i].verification) {
        GuardVerified(snapshot, user, val, entity, rules[i].verification, check);
      }
    }
    if holds && ResidualHolds(snapshot, user, val, entity, check) {
      var i :| 0 <= i < |rules| && Possible(snapshot, user, val, entity, rules[i]);
      assert Possible(snapshot, user, val, entity, guarded[i]);
    }
  }

  lemma GuardVerified(snapshot: Snapshot, user: User, val: Valuation, entity: Object, verification: Verification, check: ResidualCheck)
    requires Verified(snapshot, user, val, entity, verification.WithResidual(check))
    ensures Verified(snapshot, user, val, entity, verification) && ResidualHolds(snapshot, user, val, entity, check)
  {
    var checks := verification.WithResidual(check).checks;
    assert ResidualHolds(snapshot, user, val, entity, checks[|checks| - 1]);
    if verification.Residual? {
      forall i | 0 <= i < |verification.checks| ensures ResidualHolds(snapshot, user, val, entity, verification.checks[i]) {
        assert checks[i] == verification.checks[i];
      }
    }
  }

  ghost predicate OthersHold(snapshot: Snapshot, user: User, val: Valuation, node: Node, guards: seq<CompiledExpression>, from: nat, seed: nat) {
    forall k :: from <= k < |guards| && k != seed ==> ExprHolds(snapshot, user, val, node, guards[k])
  }

  lemma {:induction false} GuardedByOthersIsCorrect(snapshot: Snapshot, user: User, val: Valuation, node: Node, rules: seq<Rule>,
                                                    guards: seq<CompiledExpression>, from: nat, seed: nat, holds: bool)
    requires from <= |guards|
    requires PlanCorrect(snapshot, user, val, node.entity, rules, holds)
    ensures PlanCorrect(snapshot, user, val, node.entity, GuardedByOthers(rules, node.relation, guards, from, seed),
                        holds && OthersHold(snapshot, user, val, node, guards, from, seed))
    decreases |guards| - from
  {
    hide PlanCorrect;
    if from == |guards| {
    } else if from == seed {
      GuardedByOthersIsCorrect(snapshot, user, val, node, rules, guards, from + 1, seed, holds);
      assert OthersHold(snapshot, user, val, node, guards, from, seed) == OthersHold(snapshot, user, val, node, guards, from + 1, seed);
    } else {
      var check := ResidualCheck(node.relation, guards[from], ExpectAllowed);
      var guard := ResidualHolds(snapshot, user, val, node.entity, check);
      GuardedIsCorrect(snapshot, user, val, node.entity, rules, check, holds);
      GuardedByOthersIsCorrect(snapshot, user, val, node, Guarded(rules, check), guards, from + 1, seed, holds && guard);
      assert OthersHold(snapshot, user, val, node, guards, from, seed)
             == (ExprHolds(snapshot, user, val, node, guards[from]) && OthersHold(snapshot, user, val, node, guards, from + 1, seed));
    }
  }

  /** Merging two rules for one relation loses neither what suffices nor what is possible. */
  lemma {:induction false} MergeOneIsCorrect(snapshot: Snapshot, user: User, val: Valuation, entity: Object, merged: seq<Rule>, rule: Rule, holds: bool)
    requires AllSufficient(snapshot, user, val, entity, merged, holds)
    requires Sufficient(snapshot, user, val, entity, rule, holds)
    ensures AllSufficient(snapshot, user, val, entity, MergeOne(merged, rule), holds)
    ensures AnyPossible(snapshot, user, val, entity, merged) || Possible(snapshot, user, val, entity, rule) ==>
              AnyPossible(snapshot, user, val, entity, MergeOne(merged, rule))
  {
    hide Produces, ResidualsHold;
    if merged == [] {
      assert Possible(snapshot, user, val, entity, rule) ==> Possible(snapshot, user, val, entity, MergeOne(merged, rule)[0]);
    } else {
      assert Sufficient(snapshot, user, val, entity, merged[0], holds);
      if merged[0].relation != rule.relation {
        assert AllSufficient(snapshot, user, val, entity, merged[1..], holds);
        MergeOneIsCorrect(snapshot, user, val, entity, merged[1..], rule, holds);
        assert MergeOne(merged, rule)[1..] == MergeOne(merged[1..], rule);
      } else {
        assert MergeOne(merged, rule)[1..] == merged[1..];
      }
      PossibleInTail(snapshot, user, val, entity, merged);
      PossibleInTail(snapshot, user, val, entity, MergeOne(merged, rule));
    }
  }

  ghost predicate AnyPossible(snapshot: Snapshot, user: User, val: Valuation, entity: Object, rules: seq<Rule>) {
    exists i :: 0 <= i < |rules| && Possible(snapshot, user, val, entity, rules[i])
  }

  lemma PossibleInTail(snapshot: Snapshot, user: User, val: Valuation, entity: Object, rules: seq<Rule>)
    requires rules != []
    ensures AnyPossible(snapshot, user, val, entity, rules)
            <==> Possible(snapshot, user, val, entity, rules[0]) || AnyPossible(snapshot, user, val, entity, rules[1..])
  {
    hide Possible;
    if i :| 0 <= i < |rules| && Possible(snapshot, user, val, entity, rules[i]) && i > 0 {
      assert Possible(snapshot, user, val, entity, rules[1..][i - 1]);
    }
    if i :| 0 <= i < |rules[1..]| && Possible(snapshot, user, val, entity, rules[1..][i]) {
      assert Possible(snapshot, user, val, entity, rules[i + 1]);
    }
  }

  lemma {:induction false} MergeIsCorrect(snapshot: Snapshot, user: User, val: Valuation, entity: Object, merged: seq<Rule>, rules: seq<Rule>, holds: bool)
    requires AllSufficient(snapshot, user, val, entity, merged, holds)
    requires AllSufficient(snapshot, user, val, entity, rules, holds)
    ensures AllSufficient(snapshot, user, val, entity, MergeRules(merged, rules), holds)
    ensures AnyPossible(snapshot, user, val, entity, merged) || AnyPossible(snapshot, user, val, entity, rules) ==>
              AnyPossible(snapshot, user, val, entity, MergeRules(merged, rules))
    decreases |rules|
  {
    hide Possible;
    if rules != [] {
      assert Sufficient(snapshot, user, val, entity, rules[0], holds);
      assert AllSufficient(snapshot, user, val, entity, rules[1..], holds);
      PossibleInTail(snapshot, user, val, entity, rules);
      MergeOneIsCorrect(snapshot, user, val, entity, merged, rules[0], holds);
      MergeIsCorrect(snapshot, user, val, entity, MergeOne(merged, rules[0]), rules[1..], holds);
    }
  }

  // ---------------------------------------------------------------- the plan is correct

  /** The tuple-to-userset rewrites in `e` belong to the relation at `node`. */
  ghost predicate Within(schema: CompiledSchema, node: Node, e: CompiledExpression) {
    forall tupleset, computed :: UsesTuple(e, tupleset, computed) ==> TupleIn(schema, node.entity.namespace, node.relation, tupleset, computed)
  }

  ghost predicate CollectedCorrect(snapshot: Snapshot, user: User, val: Valuation, entity: Object, collected: Collected, holds: bool) {
    collected.Ok? && collected.value.Some? ==> PlanCorrect(snapshot, user, val, entity, collected.value.value, holds)
  }

  lemma RowsOnlyRule(snapshot: Snapshot, user: User, val: Valuation, entity: Object, relation: string)
    ensures PlanCorrect(snapshot, user, val, entity, [Rule(relation, ProvenWithoutCheck)],
                        ThisHolds(snapshot.rows, user, val, Node(entity, relation)))
  {
    RowsOnAreLive(snapshot.rows, entity, relation);
    var rules := [Rule(relation, ProvenWithoutCheck)];
    if ThisHolds(snapshot.rows, user, val, Node(entity, relation)) {
      var row :| row in RowsOn(snapshot.rows, entity, relation) && Contributes(snapshot, user, val, row);
      assert Possible(snapshot, user, val, entity, rules[0]);
    }
  }

  lemma TupleRule(snapshot: Snapshot, user: User, val: Valuation, node: Node, tupleset: string, computed: string)
    requires TupleIn(snapshot.schema, node.entity.namespace, node.relation, tupleset, computed)
    ensures PlanCorrect(snapshot, user, val, node.entity, [Rule(tupleset, FullRoot)],
                        TupleHolds(snapshot.rows, val, node.entity, tupleset, computed))
  {
    RowsOnAreLive(snapshot.rows, node.entity, tupleset);
    var rules := [Rule(tupleset, FullRoot)];
    if TupleHolds(snapshot.rows, val, node.entity, tupleset, computed) {
      var row :| row in RowsOn(snapshot.rows, node.entity, tupleset) && row.subject.UsersetSubject? && val(Node(row.subject.entity, computed));
      assert TakesOver(snapshot.schema, row, computed);
      assert Possible(snapshot, user, val, node.entity, rules[0]);
    }
  }

  lemma ExclusionRules(snapshot: Snapshot, user: User, val: Valuation, node: Node, rules: seq<Rule>, base: bool, exclude: CompiledExpression)
    requires PlanCorrect(snapshot, user, val, node.entity, rules, base)
    ensures PlanCorrect(snapshot, user, val, node.entity, Guarded(rules, ResidualCheck(node.relation, exclude, ExpectDenied)),
                        base && !ExprHolds(snapshot, user, val, node, exclude))
  {
    var check := ResidualCheck(node.relation, exclude, ExpectDenied);
    GuardedIsCorrect(snapshot, user, val, node.entity, rules, check, base);
  }

  lemma IntersectionRules(snapshot: Snapshot, user: User, val: Valuation, node: Node, rules: seq<Rule>, children: seq<CompiledExpression>, seed: nat)
    requires seed < |children|
    requires PlanCorrect(snapshot, user, val, node.entity, rules, ExprHolds(snapshot, user, val, node, children[seed]))
    ensures PlanCorrect(snapshot, user, val, node.entity, GuardedByOthers(rules, node.relation, children, 0, seed),
                        forall i :: 0 <= i < |children| ==> ExprHolds(snapshot, user, val, node, children[i]))
  {
    GuardedByOthersIsCorrect(snapshot, user, val, node, rules, children, 0, seed, ExprHolds(snapshot, user, val, node, children[seed]));
  }

  /** Collection over a whole relation: merged rules are sufficient and necessary for the relation. */
  lemma {:induction false} RelationPlanCorrect(snapshot: Snapshot, user: User, val: Valuation, node: Node, id: RelationId,
                                               definition: RelationDefinition, visiting: set<RelationId>)
    requires WellFormed(snapshot.schema) && Solves(snapshot, user, val)
    requires id in SchemaIds(snapshot.schema)
    requires snapshot.schema.resolver.Relation(node.entity.namespace, node.relation) == Ok(definition)
    ensures CollectedCorrect(snapshot, user, val, node.entity, CollectRelation(snapshot.schema, id, definition, visiting), val(node))
    decreases |SchemaIds(snapshot.schema) - visiting|, 0
  {
    FoundIsLinked(snapshot.schema, node.entity.namespace, node.relation);
    assert val(node) <==> DefinitionHolds(snapshot, user, val, node, definition);
    if id !in visiting {
      assert SchemaIds(snapshot.schema) - (visiting + {id}) == SchemaIds(snapshot.schema) - visiting - {id};
      if definition.compiledRewrite.Some? {
        var e := definition.compiledRewrite.value;
        ExpressionPlanCorrect(snapshot, user, val, node, e, visiting + {id});
        var collected := CollectExpression(snapshot.schema, node.relation, e, visiting + {id});
        if collected.Ok? && collected.value.Some? {
          MergeIsCorrect(snapshot, user, val, node.entity, [], collected.value.value, val(node));
        }
      } else {
        RowsOnlyRule(snapshot, user, val, node.entity, node.relation);
        MergeIsCorrect(snapshot, user, val, node.entity, [], [Rule(node.relation, ProvenWithoutCheck)], val(node));
      }
    }
  }

  lemma {:induction false} ExpressionPlanCorrect(snapshot: Snapshot, user: User, val: Valuation, node: Node,
                                                 e: CompiledExpression, visiting: set<RelationId>)
    requires WellFormed(snapshot.schema) && Solves(snapshot, user, val)
    requires Linked(snapshot.schema, node.entity.namespace, e) && Within(snapshot.schema, node, e)
    ensures CollectedCorrect(snapshot, user, val, node.entity, CollectExpression(snapshot.schema, node.relation, e, visiting),
                             ExprHolds(snapshot, user, val, node, e))
    decreases |SchemaIds(snapshot.schema) - visiting|, 1, e, 1
  {
    hide WellFormed, Solves, PlanCorrect, TupleIn;
    match e
    case This => RowsOnlyRule(snapshot, user, val, node.entity, node.relation);
    case ComputedUserset(relation, id, targetHasRewrite) => ComputedPlanCorrect(snapshot, user, val, node, e, visiting);
    case TupleToUserset(tupleset, _, computed) => TupleRule(snapshot, user, val, node, tupleset, computed);
    case Union(children) => UnionPlanCorrect(snapshot, user, val, node, children, visiting);
    case Intersection(children) => IntersectionPlanCorrect(snapshot, user, val, node, children, 0, visiting);
    case Exclusion(base, exclude) =>
      ExpressionPlanCorrect(snapshot, user, val, node, base, visiting);
      var collected := CollectExpression(snapshot.schema, node.relation, base, visiting);
      if collected.Ok? && collected.value.Some? {
        ExclusionRules(snapshot, user, val, node, collected.value.value, ExprHolds(snapshot, user, val, node, base), exclude);
      }
  }

  lemma {:induction false} ComputedPlanCorrect(snapshot: Snapshot, user: User, val: Valuation, node: Node,
                                               e: CompiledExpression, visiting: set<RelationId>)
    requires WellFormed(snapshot.schema) && Solves(snapshot, user, val)
    requires e.ComputedUserset? && Linked(snapshot.schema, node.entity.namespace, e)
    ensures CollectedCorrect(snapshot, user, val, node.entity, CollectExpression(snapshot.schema, node.relation, e, visiting),
                             ExprHolds(snapshot, user, val, node, e))
    decreases |SchemaIds(snapshot.schema) - visiting|, 1, e, 0
  {
    var target := Node(node.entity, e.relation);
    var definition := snapshot.schema.resolver.ById(e.relationId).value;
    if e.targetHasRewrite {
      assert e.relationId in SchemaIds(snapshot.schema);
      RelationPlanCorrect(snapshot, user, val, target, e.relationId, definition, visiting);
    } else {
      RowsOnlyRule(snapshot, user, val, node.entity, e.relation);
      assert val(target) <==> DefinitionHolds(snapshot, user, val, target, definition);
    }
  }

  lemma {:induction false} UnionPlanCorrect(snapshot: Snapshot, user: User, val: Valuation, node: Node,
                                            children: seq<CompiledExpression>, visiting: set<RelationId>)
    requires WellFormed(snapshot.schema) && Solves(snapshot, user, val)
    requires forall i :: 0 <= i < |children| ==> Linked(snapshot.schema, node.entity.namespace, children[i]) && Within(snapshot.schema, node, children[i])
    ensures CollectedCorrect(snapshot, user, val, node.entity, CollectUnion(snapshot.schema, node.relation, children, visiting),
                             exists i :: 0 <= i < |children| && ExprHolds(snapshot, user, val, node, children[i]))
    decreases |SchemaIds(snapshot.schema) - visiting|, 1, children, 0
  {
    hide WellFormed, Solves, Within;
    if children != [] {
      ExpressionPlanCorrect(snapshot, user, val, node, children[0], visiting);
      UnionPlanCorrect(snapshot, user, val, node, children[1..], visiting);
      var first := CollectExpression(snapshot.schema, node.relation, children[0], visiting);
      var rest := CollectUnion(snapshot.schema, node.relation, children[1..], visiting);
      if first.Ok? && first.value.Some? && rest.Ok? && rest.value.Some? {
        UnionRules(snapshot, user, val, node, first.value.value, rest.value.value, children);
      }
    }
  }

  lemma UnionRules(snapshot: Snapshot, user: User, val: Valuation, node: Node, first: seq<Rule>, rest: seq<Rule>, children: seq<CompiledExpression>)
    requires children != []
    requires PlanCorrect(snapshot, user, val, node.entity, first, ExprHolds(snapshot, user, val, node, children[0]))
    requires PlanCorrect(snapshot, user, val, node.entity, rest,
                         exists i :: 0 <= i < |children[1..]| && ExprHolds(snapshot, user, val, node, children[1..][i]))
    ensures PlanCorrect(snapshot, user, val, node.entity, first + rest,
                        exists i :: 0 <= i < |children| && ExprHolds(snapshot, user, val, node, children[i]))
  {
    hide Possible;
    var some := exists i :: 0 <= i < |children| && ExprHolds(snapshot, user, val, node, children[i]);
    var later := exists i :: 0 <= i < |children[1..]| && ExprHolds(snapshot, user, val, node, children[1..][i]);
    assert some <==> ExprHolds(snapshot, user, val, node, children[0]) || later by {
      if i :| 0 <= i < |children| && ExprHolds(snapshot, user, val, node, children[i]) && i > 0 {
        assert children[1..][i - 1] == children[i];
      }
      if i :| 0 <= i < |children[1..]| && ExprHolds(snapshot, user, val, node, children[1..][i]) {
        assert children[i + 1] == children[1..][i];
      }
    }
    forall i | 0 <= i < |first + rest| ensures Sufficient(snapshot, user, val, node.entity, (first + rest)[i], some) {
      if i < |first| {
        assert Sufficient(snapshot, user, val, node.entity, first[i], ExprHolds(snapshot, user, val, node, children[0]));
      } else {
        assert Sufficient(snapshot, user, val, node.entity, rest[i - |first|], later);
      }
    }
    if k :| 0 <= k < |first| && Possible(snapshot, user, val, node.entity, first[k]) {
      assert (first + rest)[k] == first[k];
    }
    if k :| 0 <= k < |rest| && Possible(snapshot, user, val, node.entity, rest[k]) {
      assert (first + rest)[|first| + k] == rest[k];
    }
  }

  lemma {:induction false} IntersectionPlanCorrect(snapshot: Snapshot, user: User, val: Valuation, node: Node,
                                                   children: seq<CompiledExpression>, seed: nat, visiting: set<RelationId>)
    requires WellFormed(snapshot.schema) && Solves(snapshot, user, val)
    requires seed <= |children|
    requires forall i :: 0 <= i < |children| ==> Linked(snapshot.schema, node.entity.namespace, children[i]) && Within(snapshot.schema, node, children[i])
    ensures CollectedCorrect(snapshot, user, val, node.entity, CollectIntersection(snapshot.schema, node.relation, children, seed, visiting),
                             forall i :: 0 <= i < |children| ==> ExprHolds(snapshot, user, val, node, children[i]))
    decreases |SchemaIds(snapshot.schema) - visiting|, 1, children, |children| - seed
  {
    hide WellFormed, Solves, PlanCorrect, Within;
    if seed < |children| {
      ExpressionPlanCorrect(snapshot, user, val, node, children[seed], visiting);
      var rules := CollectExpression(snapshot.schema, node.relation, children[seed], visiting);
      if rules.Ok? {
        if rules.value.None? || AnyFullRoot(rules.value.value) {
          IntersectionPlanCorrect(snapshot, user, val, node, children, seed + 1, visiting);
        } else {
          IntersectionRules(snapshot, user, val, node, rules.value.value, children, seed);
        }
      }
    }
  }

  lemma {:induction false} PlanNames(rules: seq<Rule>, soFar: seq<string>)
    ensures forall relation :: relation in soFar ==> relation in DistinctRelationNames(rules, soFar)
    ensures forall i :: 0 <= i < |rules| ==> rules[i].relation in DistinctRelationNames(rules, soFar)
  {
    if rules != [] {
      PlanNames(rules[1..], if rules[0].relation in soFar then soFar else soFar + [rules[0].relation]);
      forall i | 0 < i < |rules| ensures rules[i].relation in DistinctRelationNames(rules, soFar) {
        assert rules[1..][i - 1] == rules[i];
      }
    }
  }

  /** Whatever solution of the schema's equations is taken, cycles included: a direct row on a planned
      relation plus its verified residuals imply the permission, and every object with the permission
      has a contributing row on some planned relation whose own residuals hold, so pruning by relation
      loses no member. */
  lemma LookupPlanIsCorrect(snapshot: Snapshot, user: User, val: Valuation, entity: Object, permission: string)
    requires WellFormed(snapshot.schema) && Solves(snapshot, user, val)
    requires var plan := LookupProducerPlan(snapshot.schema, entity.namespace, permission);
             plan.Ok? && plan.value.Some?
    ensures var plan := LookupProducerPlan(snapshot.schema, entity.namespace, permission).value.value;
            && AllSufficient(snapshot, user, val, entity, plan.rules, val(Node(entity, permission)))
            && (val(Node(entity, permission)) ==> AnyPossible(snapshot, user, val, entity, plan.rules))
            && (forall i :: 0 <= i < |plan.rules| ==> plan.rules[i].relation in plan.relations)
  {
    hide AnyPossible;
    var resolver := snapshot.schema.resolver;
    LookupsAgree(resolver, snapshot.schema.definitions, entity.namespace, permission);
    var id := resolver.IdOf(entity.namespace, permission).value;
    var definition := resolver.ById(id).value;
    assert id in SchemaIds(snapshot.schema);
    RelationPlanCorrect(snapshot, user, val, Node(entity, permission), id, definition, {});
    PlanNames(CollectRelation(snapshot.schema, id, definition, {}).value.value, []);
  }

  // ---------------------------------------------------------------- residuals can be evaluated

  ghost predicate ChecksReady(snapshot: Snapshot, trust: Trust, bound: nat, entity: Object, verification: Verification) {
    verification.Residual? ==>
      forall k :: 0 <= k < |verification.checks| ==> ResidualReady(snapshot, trust, bound, entity, verification.checks[k])
  }

  ghost predicate RulesReady(snapshot: Snapshot, trust: Trust, bound: nat, entity: Object, rules: seq<Rule>) {
    forall i :: 0 <= i < |rules| ==> ChecksReady(snapshot, trust, bound, entity, rules[i].verification)
  }

  ghost predicate CollectedReady(snapshot: Snapshot, trust: Trust, bound: nat, entity: Object, collected: Collected) {
    collected.Ok? && collected.value.Some? ==> RulesReady(snapshot, trust, bound, entity, collected.value.value)
  }

  lemma {:induction false} RankedExprWeakens(snapshot: Snapshot, rank: Rank, low: nat, high: nat, node: Node, e: CompiledExpression)
    requires low <= high && RankedExpr(snapshot, rank, low, node, e)
    ensures RankedExpr(snapshot, rank, high, node, e)
  {
    match e
    case Union(children) => forall i | 0 <= i < |children| { RankedExprWeakens(snapshot, rank, low, high, node, children[i]); }
    case Intersection(children) => forall i | 0 <= i < |children| { RankedExprWeakens(snapshot, rank, low, high, node, children[i]); }
    case Exclusion(base, exclude) =>
      RankedExprWeakens(snapshot, rank, low, high, node, base);
      RankedExprWeakens(snapshot, rank, low, high, node, exclude);
    case _ =>
  }

  lemma ReadyWeakens(snapshot: Snapshot, trust: Trust, low: nat, high: nat, entity: Object, collected: Collected)
    requires low <= high && CollectedReady(snapshot, trust, low, entity, collected)
    ensures CollectedReady(snapshot, trust, high, entity, collected)
  {
    if collected.Ok? && collected.value.Some? {
      var rules := collected.value.value;
      forall i | 0 <= i < |rules| ensures ChecksReady(snapshot, trust, high, entity, rules[i].verification) {
        assert ChecksReady(snapshot, trust, low, entity, rules[i].verification);
        if rules[i].verification.Residual? {
          var checks := rules[i].verification.checks;
          forall k | 0 <= k < |checks| ensures ResidualReady(snapshot, trust, high, entity, checks[k]) {
            assert ResidualReady(snapshot, trust, low, entity, checks[k]);
            if trust.OnAcyclic? {
              RankedExprWeakens(snapshot, trust.rank, low, high, Node(entity, checks[k].relationContext), checks[k].expression);
            }
          }
        }
      }
    }
  }

  lemma GuardedReady(snapshot: Snapshot, trust: Trust, bound: nat, entity: Object, rules: seq<Rule>, check: ResidualCheck)
    requires RulesReady(snapshot, trust, bound, entity, rules) && ResidualReady(snapshot, trust, bound, entity, check)
    ensures RulesReady(snapshot, trust, bound, entity, Guarded(rules, check))
  {
    forall i | 0 <= i < |rules| ensures ChecksReady(snapshot, trust, bound, entity, Guarded(rules, check)[i].verification) {
      assert ChecksReady(snapshot, trust, bound, entity, rules[i].verification);
    }
  }

  lemma {:induction false} GuardedByOthersReady(snapshot: Snapshot, trust: Trust, bound: nat, node: Node, rules: seq<Rule>,
                                                guards: seq<CompiledExpression>, from: nat, seed: nat)
    requires from <= |guards|
    requires RulesReady(snapshot, trust, bound, node.entity, rules)
    requires forall k :: 0 <= k < |guards| ==> ExprReady(snapshot, trust, bound, node, guards[k])
    ensures RulesReady(snapshot, trust, bound, node.entity, GuardedByOthers(rules, node.relation, guards, from, seed))
    decreases |guards| - from
  {
    if from < |guards| {
      var check := ResidualCheck(node.relation, guards[from], ExpectAllowed);
      GuardedReady(snapshot, trust, bound, node.entity, rules, check);
      GuardedByOthersReady(snapshot, trust, bound, node, if from == seed then rules else Guarded(rules, check), guards, from + 1, seed);
    }
  }

  lemma {:induction false} MergeOneReady(snapshot: Snapshot, trust: Trust, bound: nat, entity: Object, merged: seq<Rule>, rule: Rule)
    requires RulesReady(snapshot, trust, bound, entity, merged) && ChecksReady(snapshot, trust, bound, entity, rule.verification)
    ensures RulesReady(snapshot, trust, bound, entity, MergeOne(merged, rule))
  {
    if merged != [] {
      assert ChecksReady(snapshot, trust, bound, entity, merged[0].verification);
      assert RulesReady(snapshot, trust, bound, entity, merged[1..]);
      MergeOneReady(snapshot, trust, bound, entity, merged[1..], rule);
    }
  }

  lemma {:induction false} MergeReady(snapshot: Snapshot, trust: Trust, bound: nat, entity: Object, merged: seq<Rule>, rules: seq<Rule>)
    requires RulesReady(snapshot, trust, bound, entity, merged) && RulesReady(snapshot, trust, bound, entity, rules)
    ensures RulesReady(snapshot, trust, bound, entity, MergeRules(merged, rules))
    decreases |rules|
  {
    if rules != [] {
      assert ChecksReady(snapshot, trust, bound, entity, rules[0].verification);
      MergeOneReady(snapshot, trust, bound, entity, merged, rules[0]);
      MergeReady(snapshot, trust, bound, entity, MergeOne(merged, rules[0]), rules[1..]);
    }
  }

  /** Every residual collected for a relation only consults usersets the relation itself may consult. */
  lemma {:induction false} RelationPlanReady(snapshot: Snapshot, user: User, trust: Trust, node: Node, id: RelationId,
                                             definition: RelationDefinition, visiting: set<RelationId>)
    requires !trust.Untrusted? && Justified(snapshot, user, trust)
    requires id in SchemaIds(snapshot.schema)
    requires snapshot.schema.resolver.Relation(node.entity.namespace, node.relation) == Ok(definition)
    ensures CollectedReady(snapshot, trust, BoundAt(trust, node), node.entity, CollectRelation(snapshot.schema, id, definition, visiting))
    decreases |SchemaIds(snapshot.schema) - visiting|, 0
  {
    hide Justified, Member;
    EnteredNodeReady(snapshot, user, trust, node);
    if id !in visiting {
      assert SchemaIds(snapshot.schema) - (visiting + {id}) == SchemaIds(snapshot.schema) - visiting - {id};
      if definition.compiledRewrite.Some? {
        var e := definition.compiledRewrite.value;
        ExpressionPlanReady(snapshot, user, trust, BoundAt(trust, node), node, e, visiting + {id});
        var collected := CollectExpression(snapshot.schema, node.relation, e, visiting + {id});
        if collected.Ok? && collected.value.Some? {
          MergeReady(snapshot, trust, BoundAt(trust, node), node.entity, [], collected.value.value);
        }
      } else {
        MergeReady(snapshot, trust, BoundAt(trust, node), node.entity, [], [Rule(node.relation, ProvenWithoutCheck)]);
      }
    }
  }

  lemma {:induction false} ExpressionPlanReady(snapshot: Snapshot, user: User, trust: Trust, bound: nat, node: Node,
                                               e: CompiledExpression, visiting: set<RelationId>)
    requires !trust.Untrusted? && Justified(snapshot, user, trust)
    requires ExprReady(snapshot, trust, bound, node, e)
    ensures CollectedReady(snapshot, trust, bound, node.entity, CollectExpression(snapshot.schema, node.relation, e, visiting))
    decreases |SchemaIds(snapshot.schema) - visiting|, 1, e, 1
  {
    hide Justified, RulesReady, ResidualReady;
    match e
    case This => RowsOnlyReady(snapshot, trust, bound, node.entity, node.relation);
    case ComputedUserset(_, _, _) => ComputedPlanReady(snapshot, user, trust, bound, node, e, visiting);
    case TupleToUserset(tupleset, _, _) => TupleReady(snapshot, trust, bound, node.entity, tupleset);
    case Union(children) => UnionPlanReady(snapshot, user, trust, bound, node, children, visiting);
    case Intersection(children) => IntersectionPlanReady(snapshot, user, trust, bound, node, children, 0, visiting);
    case Exclusion(base, exclude) =>
      ExpressionPlanReady(snapshot, user, trust, bound, node, base, visiting);
      ExclusionReady(snapshot, trust, bound, node, base, exclude, visiting);
  }

  lemma RowsOnlyReady(snapshot: Snapshot, trust: Trust, bound: nat, entity: Object, relation: string)
    ensures RulesReady(snapshot, trust, bound, entity, [Rule(relation, ProvenWithoutCheck)])
  {
  }

  lemma TupleReady(snapshot: Snapshot, trust: Trust, bound: nat, entity: Object, tupleset: string)
    ensures RulesReady(snapshot, trust, bound, entity, [Rule(tupleset, FullRoot)])
  {
  }

  lemma ExclusionReady(snapshot: Snapshot, trust: Trust, bound: nat, node: Node, base: CompiledExpression, exclude: CompiledExpression, visiting: set<RelationId>)
    requires ExprReady(snapshot, trust, bound, node, Exclusion(base, exclude))
    requires CollectedReady(snapshot, trust, bound, node.entity, CollectExpression(snapshot.schema, node.relation, base, visiting))
    ensures CollectedReady(snapshot, trust, bound, node.entity, CollectExpression(snapshot.schema, node.relation, Exclusion(base, exclude), visiting))
  {
    var collected := CollectExpression(snapshot.schema, node.relation, base, visiting);
    if collected.Ok? && collected.value.Some? {
      GuardedReady(snapshot, trust, bound, node.entity, collected.value.value, ResidualCheck(node.relation, exclude, ExpectDenied));
    }
  }

  lemma {:induction false} ComputedPlanReady(snapshot: Snapshot, user: User, trust: Trust, bound: nat, node: Node,
                                             e: CompiledExpression, visiting: set<RelationId>)
    requires !trust.Untrusted? && Justified(snapshot, user, trust)
    requires e.ComputedUserset? && ExprReady(snapshot, trust, bound, node, e)
    ensures CollectedReady(snapshot, trust, bound, node.entity, CollectExpression(snapshot.schema, node.relation, e, visiting))
    decreases |SchemaIds(snapshot.schema) - visiting|, 1, e, 0
  {
    hide Justified, CollectRelation;
    if e.targetHasRewrite {
      var target := Node(node.entity, e.relation);
      var definition := snapshot.schema.resolver.ById(e.relationId).value;
      assert e.relationId in SchemaIds(snapshot.schema);
      RelationPlanReady(snapshot, user, trust, target, e.relationId, definition, visiting);
      ReadyWeakens(snapshot, trust, BoundAt(trust, target), bound, node.entity, CollectRelation(snapshot.schema, e.relationId, definition, visiting));
    }
  }

  lemma {:induction false} UnionPlanReady(snapshot: Snapshot, user: User, trust: Trust, bound: nat, node: Node,
                                          children: seq<CompiledExpression>, visiting: set<RelationId>)
    requires !trust.Untrusted? && Justified(snapshot, user, trust)
    requires forall i :: 0 <= i < |children| ==> ExprReady(snapshot, trust, bound, node, children[i])
    ensures CollectedReady(snapshot, trust, bound, node.entity, CollectUnion(snapshot.schema, node.relation, children, visiting))
    decreases |SchemaIds(snapshot.schema) - visiting|, 1, children, 0
  {
    hide Justified, ChecksReady, ExprReady;
    if children != [] {
      ExpressionPlanReady(snapshot, user, trust, bound, node, children[0], visiting);
      UnionPlanReady(snapshot, user, trust, bound, node, children[1..], visiting);
    }
  }

  lemma {:induction false} IntersectionPlanReady(snapshot: Snapshot, user: User, trust: Trust, bound: nat, node: Node,
                                                 children: seq<CompiledExpression>, seed: nat, visiting: set<RelationId>)
    requires !trust.Untrusted? && Justified(snapshot, user, trust)
    requires seed <= |children|
    requires forall i :: 0 <= i < |children| ==> ExprReady(snapshot, trust, bound, node, children[i])
    ensures CollectedReady(snapshot, trust, bound, node.entity, CollectIntersection(snapshot.schema, node.relation, children, seed, visiting))
    decreases |SchemaIds(snapshot.schema) - visiting|, 1, children, |children| - seed
  {
    hide Justified, RulesReady, ExprReady;
    if seed < |children| {
      ExpressionPlanReady(snapshot, user, trust, bound, node, children[seed], visiting);
      var rules := CollectExpression(snapshot.schema, node.relation, children[seed], visiting);
      if rules.Ok? {
        if rules.value.None? || AnyFullRoot(rules.value.value) {
          IntersectionPlanReady(snapshot, user, trust, bound, node, children, seed + 1, visiting);
        } else {
          GuardedByOthersReady(snapshot, trust, bound, node, rules.value.value, children, 0, seed);
        }
      }
    }
  }

  /** The residuals of a permission's plan may be evaluated under the permission's own key. */
  lemma LookupPlanIsReady(snapshot: Snapshot, user: User, trust: Trust, entity: Object, permission: string)
    requires !trust.Untrusted? && Justified(snapshot, user, trust)
    requires var plan := LookupProducerPlan(snapshot.schema, entity.namespace, permission);
             plan.Ok? && plan.value.Some?
    ensures RulesReady(snapshot, trust, BoundAt(trust, Node(entity, permission)), entity,
                       LookupProducerPlan(snapshot.schema, entity.namespace, permission).value.value.rules)
  {
    hide RulesReady, CollectRelation;
    var resolver := snapshot.schema.resolver;
    LookupsAgree(resolver, snapshot.schema.definitions, entity.namespace, permission);
    var id := resolver.IdOf(entity.namespace, permission).value;
    var definition := resolver.ById(id).value;
    assert id in SchemaIds(snapshot.schema);
    RelationPlanReady(snapshot, user, trust, Node(entity, permission), id, definition, {});
  }
}
