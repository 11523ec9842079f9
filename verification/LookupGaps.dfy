/** Inputs on which a resource lookup misses a member, one for each condition of coverage. */
module LookupGaps {
  import opened Vocabulary
  import opened Domain
  import opened Schema
  import opened Semantics
  import opened CheckSpec
  import opened CheckCorrect
  import opened MemoCorrect
  import opened Planner
  import opened RelationReach
  import opened RelationEdges
  import opened ResourceWalk
  import opened ResourceCoverage
  import opened ResourceClosure
  import opened ResourceBounds
  import opened LookupResources

  const ANN := UserId("ann")

  function Plain(name: string): RelationDefinition { RelationDefinition(name, Unspecified, None, None) }

  function Ruled(name: string, rewrite: UsersetExpression, compiled: CompiledExpression): RelationDefinition {
    RelationDefinition(name, Unspecified, Some(rewrite), Some(compiled))
  }

  function Inserted(rows: seq<Relationship>): Rows { Rows(rows, [], {}) }

  /** The index of a view posts exactly what some row matches. */
  function PostedBy(rows: seq<Relationship>): SubjectFilter -> bool {
    (filter: SubjectFilter) => exists i :: 0 <= i < |rows| && MatchesSubject(rows[i].subject, filter)
  }

  lemma InsertedIsExact(rows: seq<Relationship>, user: User)
    ensures DirectExact(Inserted(rows), user)
    ensures forall row :: Live(Inserted(rows), row) <==> row in rows
  {
    if user.UserId? {
      DirectExactForUsers(Inserted(rows), user);
    } else {
      DirectExactForUsersets(Inserted(rows), user);
    }
  }

  /** The lookup ends, and whenever it does it leaves out an object on which the subject has the permission. */
  ghost predicate Misses(w: Walk, lost: Object) {
    && Decidable(w.snapshot, w.request.subject) && Planned(w) && PostsLive(w.snapshot.rows, w.posted)
    && w.OfRequestedType(lost) && w.Holds(lost)
    && (exists resources :: Yields(w, resources))
    && (forall resources :: Yields(w, resources) ==> lost !in resources)
  }

  // ---------------------------------------------------------------- schemas by their definitions

  lemma {:induction false} RelationTable(relations: seq<RelationDefinition>) returns (table: map<string, nat>)
    requires DistinctRelations(relations)
    ensures IndexesRelations(table, relations)
  {
    table := map[];
    if relations != [] {
      var last := |relations| - 1;
      var before := RelationTable(relations[..last]);
      table := before[relations[last].name := last];
    }
  }

  /** Definitions whose names differ have name tables. */
  lemma {:induction false} NameTables(definitions: seq<NamespaceDefinition>) returns (resolver: SchemaResolver)
    requires DistinctNames(definitions)
    ensures IndexesNamespaces(resolver, definitions)
  {
    hide DistinctRelations, IndexesRelations;
    resolver := SchemaResolver([], map[], map[]);
    if definitions != [] {
      var last := |definitions| - 1;
      var before := NameTables(definitions[..last]);
      var relations := RelationTable(definitions[last].relations);
      resolver := SchemaResolver([], before.namespaceIndexes[definitions[last].name := last],
                                 before.relationIndexes[definitions[last].name := relations]);
      NamespaceAdded(before, resolver, definitions[..last], definitions[last], relations);
      assert definitions == definitions[..last] + [definitions[last]];
    }
  }

  lemma SchemaOf(definitions: seq<NamespaceDefinition>) returns (schema: CompiledSchema)
    requires DistinctNames(definitions)
    requires forall i :: 0 <= i < |definitions| ==> NamespaceCompiled(definitions, definitions[i])
    ensures WellFormed(schema) && schema.definitions == definitions
  {
    var resolver := NameTables(definitions);
    schema := CompiledSchema(definitions, resolver.(definitions := definitions));
  }

  /** The definition found for a relation is the one at its position. */
  lemma FoundAt(schema: CompiledSchema, namespace: string, relation: string, id: RelationId)
    requires WellFormed(schema) && DefinedAt(schema.definitions, namespace, relation, id)
    ensures schema.resolver.IdOf(namespace, relation) == Ok(id)
    ensures schema.resolver.Relation(namespace, relation) == Ok(RelationAt(schema.definitions, id))
    ensures schema.resolver.ById(id) == Some(RelationAt(schema.definitions, id))
  {
    LookupsAgree(schema.resolver, schema.definitions, namespace, relation);
  }

  // ---------------------------------------------------------------- contested residuals

  const PERM := SourceUnion([SourceIntersection([SourceComputed("a"), SourceComputed("b")]), SourceComputed("c")])

  const PERM_COMPILED :=
    Union([Intersection([ComputedUserset("a", RelationId(0, 0), false), ComputedUserset("b", RelationId(0, 1), false)]),
           ComputedUserset("c", RelationId(0, 2), false)])

  const CONTESTED := [NamespaceDefinition("doc", [Plain("a"), Plain("b"), Plain("c"), Ruled("perm", PERM, PERM_COMPILED)])]

  lemma ContestedIsLegal()
    ensures DistinctNames(CONTESTED) && NamespaceCompiled(CONTESTED, CONTESTED[0])
  {
    assert DistinctRelations(CONTESTED[0].relations);
    assert DefinedAt(CONTESTED, "doc", "a", RelationId(0, 0));
    assert DefinedAt(CONTESTED, "doc", "b", RelationId(0, 1));
    assert DefinedAt(CONTESTED, "doc", "c", RelationId(0, 2));
    assert ResolvedAs(CONTESTED, "doc", PERM.operands[0], PERM_COMPILED.children[0]);
    assert ResolvedAs(CONTESTED, "doc", PERM, PERM_COMPILED);
  }

  const X := Object("doc", "x")
  const NEEDS_B := ResidualCheck("perm", ComputedUserset("b", RelationId(0, 1), false), ExpectAllowed)
  const CONTESTED_RULES := [Rule("a", Residual([NEEDS_B])), Rule("c", ProvenWithoutCheck)]
  const ON_A := Relationship(X, "a", DirectSubject(Object(USER_TYPE, "ann")))
  const ON_C := Relationship(X, "c", DirectSubject(Object(USER_TYPE, "ann")))

  /** The plan of `perm`: rows on `a` need `b` too, rows on `c` need nothing. */
  lemma ContestedPlan(schema: CompiledSchema)
    requires WellFormed(schema) && schema.definitions == CONTESTED
    ensures LookupProducerPlan(schema, "doc", "perm") == Ok(Some(ProducerPlan(["a", "c"], CONTESTED_RULES)))
  {
    hide WellFormed;
    var perm, visiting := RelationId(0, 3), {RelationId(0, 3)};
    FoundAt(schema, "doc", "perm", perm);
    assert perm in SchemaIds(schema);
    var both := PERM_COMPILED.children[0].children;
    assert CollectExpression(schema, "perm", both[0], visiting) == Ok(Some([Rule("a", ProvenWithoutCheck)]));
    var guarded := Guarded([Rule("a", ProvenWithoutCheck)], NEEDS_B);
    assert guarded == [CONTESTED_RULES[0]];
    assert GuardedByOthers([Rule("a", ProvenWithoutCheck)], "perm", both, 1, 0) == GuardedByOthers(guarded, "perm", both, 2, 0) == guarded;
    assert CollectIntersection(schema, "perm", both, 0, visiting) == Ok(Some(guarded));
    TwoOperands(schema, "perm", PERM_COMPILED.children, visiting, CONTESTED_RULES[0], CONTESTED_RULES[1]);
    TwoRules(CONTESTED_RULES[0], CONTESTED_RULES[1]);
    assert CONTESTED_RULES == [CONTESTED_RULES[0], CONTESTED_RULES[1]] && {} + visiting == visiting;
    assert CollectExpression(schema, "perm", PERM_COMPILED, visiting) == Ok(Some(CONTESTED_RULES));
    assert CollectRelation(schema, perm, CONTESTED[0].relations[3], {}) == Ok(Some(CONTESTED_RULES));
  }

  lemma TwoOperands(schema: CompiledSchema, current: string, children: seq<CompiledExpression>, visiting: set<RelationId>, left: Rule, right: Rule)
    requires |children| == 2
    requires CollectExpression(schema, current, children[0], visiting) == Ok(Some([left]))
    requires CollectExpression(schema, current, children[1], visiting) == Ok(Some([right]))
    ensures CollectUnion(schema, current, children, visiting) == Ok(Some([left, right]))
  {
    assert children[1..][0] == children[1] && children[1..][1..] == [];
    assert CollectUnion(schema, current, children[1..][1..], visiting) == Ok(Some([]));
    assert CollectUnion(schema, current, children[1..], visiting) == Ok(Some([right] + []));
    assert [left] + ([right] + []) == [left, right];
  }

  /** Rules for two relations are kept as they are. */
  lemma TwoRules(left: Rule, right: Rule)
    requires left.relation != right.relation
    ensures MergeRules([], [left, right]) == [left, right]
    ensures DistinctRelationNames([left, right], []) == [left.relation, right.relation]
  {
    assert MergeOne([], left) == [left] && [left, right][1..] == [right];
    assert MergeOne([left], right) == [left] + MergeOne([left][1..], right) == [left, right];
    assert MergeRules([left], [right]) == MergeRules([left, right], [right][1..]) == [left, right];
    assert DistinctRelationNames([right], [] + [left.relation]) == DistinctRelationNames([right][1..], [left.relation, right.relation]);
  }

  /** Only what is found can be reached by name. */
  lemma DefinedNames(schema: CompiledSchema, namespace: string, relation: string)
    requires WellFormed(schema) && schema.resolver.Relation(namespace, relation).Ok?
    ensures exists id :: DefinedAt(schema.definitions, namespace, relation, id)
                         && schema.resolver.Relation(namespace, relation).value == RelationAt(schema.definitions, id)
  {
    LookupsAgree(schema.resolver, schema.definitions, namespace, relation);
    var id := schema.resolver.IdOf(namespace, relation).value;
    assert DefinedAt(schema.definitions, namespace, relation, id);
  }

  function ContestedWalk(schema: CompiledSchema, limits: EvaluationLimits): Walk {
    WalkOf(Snapshot(schema, Inserted([ON_A, ON_C]), None), LookupRequest(ANN, "perm", "doc"), limits, PostedBy([ON_A, ON_C]))
  }

  ghost function PermRank(): Rank { (node: Node) => if node.relation == "perm" then 1 else 0 }

  lemma ContestedRelations(schema: CompiledSchema, namespace: string, relation: string)
    requires WellFormed(schema) && schema.definitions == CONTESTED
    requires schema.resolver.Relation(namespace, relation).Ok?
    ensures var definition := schema.resolver.Relation(namespace, relation).value;
            if relation == "perm" then definition.compiledRewrite == Some(PERM_COMPILED) else definition.compiledRewrite == None
    ensures ValidTypeName(relation)
  {
    hide WellFormed;
    DefinedNames(schema, namespace, relation);
    var id :| DefinedAt(CONTESTED, namespace, relation, id) && schema.resolver.Relation(namespace, relation).value == RelationAt(CONTESTED, id);
    assert id.relationIndex in {0, 1, 2, 3};
  }

  /** Rows that name no userset depend on nothing. */
  lemma DirectRowsAreRanked(rows: Rows, rank: Rank, bound: nat, node: Node)
    requires forall row :: Live(rows, row) ==> row.subject.DirectSubject?
    ensures RankedThis(rows, rank, bound, node)
  {
    RowsOnAreLive(rows, node.entity, node.relation);
  }

  lemma PermIsRanked(snapshot: Snapshot, node: Node)
    requires WellFormed(snapshot.schema) && snapshot.schema.definitions == CONTESTED
    ensures RankedExpr(snapshot, PermRank(), 1, node, PERM_COMPILED)
  {
    hide WellFormed;
    FoundAt(snapshot.schema, "doc", "a", RelationId(0, 0));
    FoundAt(snapshot.schema, "doc", "b", RelationId(0, 1));
    FoundAt(snapshot.schema, "doc", "c", RelationId(0, 2));
    assert RankedExpr(snapshot, PermRank(), 1, node, PERM_COMPILED.children[0]);
    assert RankedExpr(snapshot, PermRank(), 1, node, PERM_COMPILED.children[1]);
  }

  lemma ContestedIsDecidable(schema: CompiledSchema, limits: EvaluationLimits)
    requires WellFormed(schema) && schema.definitions == CONTESTED
    ensures Decidable(ContestedWalk(schema, limits).snapshot, ANN)
  {
    hide WellFormed, LookupProducerPlan, RankedExpr, RankedThis;
    var snapshot := ContestedWalk(schema, limits).snapshot;
    InsertedIsExact([ON_A, ON_C], ANN);
    forall node: Node | schema.resolver.Relation(node.entity.namespace, node.relation).Ok?
      ensures RankedDefinition(snapshot, PermRank(), PermRank()(node), node, schema.resolver.Relation(node.entity.namespace, node.relation).value)
    {
      ContestedRelations(schema, node.entity.namespace, node.relation);
      if node.relation == "perm" {
        PermIsRanked(snapshot, node);
      } else {
        DirectRowsAreRanked(snapshot.rows, PermRank(), PermRank()(node), node);
      }
    }
    assert Acyclic(snapshot, PermRank());
  }

  /** The subject has `perm` through `c`, and does not have `b`. */
  lemma NobodyOnB(schema: CompiledSchema, limits: EvaluationLimits)
    requires WellFormed(schema) && schema.definitions == CONTESTED
    ensures !Member(ContestedWalk(schema, limits).snapshot, ANN)(Node(X, "b"))
  {
    hide WellFormed, LookupProducerPlan, Member, DirectExact, Acyclic;
    var w := ContestedWalk(schema, limits);
    ContestedIsDecidable(schema, limits);
    MemberSolves(w.snapshot, ANN);
    InsertedIsExact([ON_A, ON_C], ANN);
    FoundAt(schema, "doc", "b", RelationId(0, 1));
    RowsOnAreLive(w.snapshot.rows, X, "b");
    assert !BodyHolds(w.snapshot, ANN, Member(w.snapshot, ANN), Node(X, "b"));
  }

  lemma ContestedMembers(schema: CompiledSchema, limits: EvaluationLimits)
    requires WellFormed(schema) && schema.definitions == CONTESTED
    ensures var w := ContestedWalk(schema, limits);
            w.Holds(X) && !Member(w.snapshot, ANN)(Node(X, "b"))
  {
    hide WellFormed, LookupProducerPlan, Member, DirectExact, Acyclic, Select;
    var w := ContestedWalk(schema, limits);
    var val := Member(w.snapshot, ANN);
    NobodyOnB(schema, limits);
    ContestedIsDecidable(schema, limits);
    MemberSolves(w.snapshot, ANN);
    InsertedIsExact([ON_A, ON_C], ANN);
    FoundAt(schema, "doc", "c", RelationId(0, 2));
    FoundAt(schema, "doc", "perm", RelationId(0, 3));
    assert Live(w.snapshot.rows, ON_C) && MatchesSubject(ON_C.subject, FilterOf(ANN));
    assert BodyHolds(w.snapshot, ANN, val, Node(X, "c"));
    assert ExprHolds(w.snapshot, ANN, val, Node(X, "perm"), PERM_COMPILED.children[1]);
    assert BodyHolds(w.snapshot, ANN, val, Node(X, "perm"));
  }

  /** The row on `a` comes first, is checked for `b`, and settles the matter. */
  lemma FirstRowIsTurnedDown(schema: CompiledSchema, limits: EvaluationLimits)
    requires WellFormed(schema) && schema.definitions == CONTESTED
    requires limits.maxDepth > 1 && limits.maxLookupResults > 0
    ensures var w := ContestedWalk(schema, limits);
            var first := RowStep(w, Start(w).(frontier := []), ON_A, FrontierEntry(ANN, SubjectProof(0, true)));
            first.Ok? ==> X in first.value.seen && X !in first.value.resources
  {
    hide WellFormed, LookupProducerPlan, Member;
    var w := ContestedWalk(schema, limits);
    ContestedPlan(schema);
    ContestedMembers(schema, limits);
    FoundAt(schema, "doc", "a", RelationId(0, 0));
    FoundAt(schema, "doc", "b", RelationId(0, 1));
    assert w.plan.Some? && "a" in w.plan.value.relations;
    var proof := SubjectProof(1, true);
    assert w.RelationshipProof(ON_A, SubjectProof(0, true)) == Ok(proof);
    assert w.VerificationFor(ON_A, proof) == Residual([NEEDS_B]);
    assert !ResidualHolds(w.snapshot, ANN, Member(w.snapshot, ANN), X, [NEEDS_B][0]);
    assert !w.Verdict(X, Residual([NEEDS_B]));
  }

  lemma OneStepTurnsDown(schema: CompiledSchema, limits: EvaluationLimits)
    requires WellFormed(schema) && schema.definitions == CONTESTED
    requires limits.maxDepth > 1 && limits.maxLookupResults > 0
    ensures var w := ContestedWalk(schema, limits);
            After(w, 1).Ok? ==> X in After(w, 1).value.seen && X !in After(w, 1).value.resources
  {
    hide WellFormed, RowStep, ContestedWalk, Pending, Full;
    var w := ContestedWalk(schema, limits);
    var entry := FrontierEntry(ANN, SubjectProof(0, true));
    assert w.request.subject == ANN && w.limits == limits && w.snapshot.rows == Inserted([ON_A, ON_C]) by {
      ContestedWalkIs(schema, limits);
    }
    var popped := Start(w).(frontier := []);
    assert Start(w).frontier[1..] == [];
    var rows := ReverseQuery(w.snapshot.rows, FilterOf(ANN));
    assert rows == [ON_A, ON_C] by {
      AllSelected([ON_A, ON_C], (row: Relationship) => MatchesSubject(row.subject, FilterOf(ANN)));
    }
    FirstRowIsTurnedDown(schema, limits);
    assert !Full(w, popped) && !Done(w, Start(w)) by {
      StartIsNotFull(w);
    }
    assert After(w, 0) == Ok(Start(w)) && After(w, 1) == Step(w, Start(w));
    if After(w, 1).Ok? {
      var first := RowStep(w, popped, ON_A, entry).value;
      RowsStepFollows(w, first, rows[1..], entry);
      assert After(w, 1) == RowsStep(w, popped, rows, entry);
    }
  }

  lemma ContestedWalkIs(schema: CompiledSchema, limits: EvaluationLimits)
    ensures var w := ContestedWalk(schema, limits);
            w.request == LookupRequest(ANN, "perm", "doc") && w.limits == limits && w.snapshot.rows == Inserted([ON_A, ON_C])
  {
  }

  lemma StartIsNotFull(w: Walk)
    requires w.limits.maxLookupResults > 0
    ensures !Full(w, Start(w).(frontier := [])) && !Done(w, Start(w))
  {
  }

  lemma ContestedIsSane(schema: CompiledSchema, limits: EvaluationLimits)
    requires WellFormed(schema) && schema.definitions == CONTESTED
    ensures Sane(ContestedWalk(schema, limits))
  {
    hide WellFormed, LookupProducerPlan;
    var w := ContestedWalk(schema, limits);
    InsertedIsExact([ON_A, ON_C], ANN);
    FoundAt(schema, "doc", "a", RelationId(0, 0));
    FoundAt(schema, "doc", "c", RelationId(0, 2));
    assert RowIsSane(w, ON_A) && RowIsSane(w, ON_C);
    forall namespace, relation | schema.resolver.Relation(namespace, relation).Ok? ensures ValidTypeName(relation) {
      ContestedRelations(schema, namespace, relation);
    }
  }

  lemma PostedByPostsLive(rows: seq<Relationship>)
    ensures PostsLive(Inserted(rows), PostedBy(rows))
  {
    InsertedIsExact(rows, ANN);
  }

  /** A candidate counts as seen before it is verified: where two rules compete, the residuals of the
      first row may turn down an object that the second row would have proven. */
  lemma ContestedResidualsMiss(limits: EvaluationLimits) returns (w: Walk)
    requires limits.maxDepth > 1 && limits.maxLookupResults > 0
    ensures w.limits == limits && Misses(w, X)
    ensures TupleRowsAreFound(w) && PrunesLeavesOnly(w) && w.plan.Some? && !Uncontested(w.plan.value.rules)
  {
    hide WellFormed, LookupProducerPlan, Member, Decidable, Sane, Yields, PostsLive, After;
    ContestedIsLegal();
    var schema := SchemaOf(CONTESTED);
    w := ContestedWalk(schema, limits);
    ContestedPlan(schema);
    ContestedIsDecidable(schema, limits);
    ContestedMembers(schema, limits);
    ContestedIsSane(schema, limits);
    PostedByPostsLive([ON_A, ON_C]);
    InsertedIsExact([ON_A, ON_C], ANN);
    var resources := SaneWalkEnds(w);
    OneStepTurnsDown(schema, limits);
    TurnedDownIsNotReturned(w, 1, X);
    assert w.plan.value.rules[0].verification.Residual? && !w.plan.value.rules[1].verification.Residual?;
    assert TupleRowsAreFound(w) && PrunesLeavesOnly(w);
  }

  // ---------------------------------------------------------------- folders

  const INHERITED := SourceTupleToUserset("parent", "viewer")

  function Inherits(parent: RelationId): CompiledExpression { TupleToUserset("parent", parent, "viewer") }

  function OwnOrInherited(parent: RelationId): CompiledExpression { Union([This, Inherits(parent)]) }

  /** Folders hand their viewers down to the folders and documents in them. */
  const FOLDERS := [
    NamespaceDefinition("folder", [Plain("parent"), Plain("owner"), Ruled("viewer", SourceUnion([SourceThis, INHERITED]), OwnOrInherited(RelationId(0, 0)))]),
    NamespaceDefinition("doc", [Plain("parent"), Ruled("viewer", INHERITED, Inherits(RelationId(1, 0)))])]

  ghost predicate Inheriting(schema: CompiledSchema, e: CompiledExpression) {
    exists parent :: NameOf(schema, parent) == "parent" && (e == Inherits(parent) || e == OwnOrInherited(parent))
  }

  /** Every rewrite takes `viewer` over from `parent`, and none refers to another relation of its object. */
  ghost predicate InheritsOnly(schema: CompiledSchema) {
    forall namespace, relation :: RewriteOf(schema, namespace, relation).Some? ==> Inheriting(schema, RewriteOf(schema, namespace, relation).value)
  }

  lemma InheritingUses(schema: CompiledSchema, e: CompiledExpression)
    requires Inheriting(schema, e)
    ensures forall used :: !Uses(e, used)
    ensures forall tupleset, computed :: UsesTuple(e, tupleset, computed) <==> tupleset == "parent" && computed == "viewer"
  {
    var parent :| NameOf(schema, parent) == "parent" && (e == Inherits(parent) || e == OwnOrInherited(parent));
    if e == OwnOrInherited(parent) {
      assert UsesTuple(e.children[1], "parent", "viewer");
    }
  }

  lemma NothingElseIncluded(schema: CompiledSchema, namespace: string, from: string, to: string)
    requires InheritsOnly(schema)
    ensures Includes(schema, namespace, from, to) ==> from == to
  {
    hide Inheriting;
    forall path | PathBetween(schema, namespace, path, from, to) ensures from == to {
      if |path| > 1 {
        assert Edge(schema, namespace, path[0], path[1]);
        InheritingUses(schema, RewriteOf(schema, namespace, from).value);
      }
    }
  }

  lemma OnlyViewerIsTakenOver(schema: CompiledSchema, namespace: string, relation: string, tupleset: string, computed: string)
    requires InheritsOnly(schema) && TupleBelow(schema, namespace, relation, tupleset, computed)
    ensures tupleset == "parent" && computed == "viewer"
  {
    hide Inheriting, Includes;
    var below :| Includes(schema, namespace, relation, below) && TupleIn(schema, namespace, below, tupleset, computed);
    InheritingUses(schema, RewriteOf(schema, namespace, below).value);
  }

  /** Following a userset the walk has visited leads nowhere by the schema if some row names it, or if it
      is not a viewer. */
  lemma SchemaLeadsNowhere(w: Walk, entity: Object, relation: string, visited: set<User>, seen: set<Object>)
    requires InheritsOnly(w.snapshot.schema)
    requires relation == "viewer" ==> w.posted(FilterOf(Userset(entity, "viewer")))
    ensures Expanded(w, entity, relation, visited) && TuplesFollowed(w, entity, relation, visited, seen)
  {
    hide InheritsOnly, Includes, TupleBelow;
    var schema := w.snapshot.schema;
    forall from | Includes(schema, entity.namespace, from, relation) ensures from == relation {
      NothingElseIncluded(schema, entity.namespace, from, relation);
    }
    forall t | TupleEdge(schema, entity.namespace, relation, t) ensures !w.Broad(t, entity) {
      OnlyViewerIsTakenOver(schema, t.resourceType, t.target, t.tupleset, t.computed);
    }
  }

  lemma InheritedPlan(schema: CompiledSchema, parent: RelationId)
    requires WellFormed(schema) && RewriteOf(schema, "doc", "viewer") == Some(Inherits(parent))
    ensures LookupProducerPlan(schema, "doc", "viewer") == Ok(Some(ProducerPlan(["parent"], [Rule("parent", FullRoot)])))
  {
    LookupsAgree(schema.resolver, schema.definitions, "doc", "viewer");
    var rule := Rule("parent", FullRoot);
    var id := schema.resolver.IdOf("doc", "viewer").value;
    var definition := schema.resolver.ById(id).value;
    assert id in SchemaIds(schema) && definition.compiledRewrite == Some(Inherits(parent));
    assert MergeOne([], rule) == [rule] && MergeRules([], [rule]) == MergeRules([rule], [rule][1..]) == [rule];
    assert DistinctRelationNames([rule], []) == DistinctRelationNames([rule][1..], [] + ["parent"]) == ["parent"];
    assert CollectRelation(schema, id, definition, {}) == Ok(Some([rule]));
  }

  lemma FoldersAreLegal()
    ensures DistinctNames(FOLDERS) && forall i :: 0 <= i < |FOLDERS| ==> NamespaceCompiled(FOLDERS, FOLDERS[i])
  {
    assert DistinctRelations(FOLDERS[0].relations) && DistinctRelations(FOLDERS[1].relations);
    assert DefinedAt(FOLDERS, "folder", "parent", RelationId(0, 0)) && DefinedAt(FOLDERS, "doc", "parent", RelationId(1, 0));
    assert ResolvedAs(FOLDERS, "folder", SourceThis, This) && ResolvedAs(FOLDERS, "folder", INHERITED, Inherits(RelationId(0, 0)));
    assert NamespaceCompiled(FOLDERS, FOLDERS[0]) && NamespaceCompiled(FOLDERS, FOLDERS[1]);
  }

  /** What the arguments about folders use of the schema. */
  ghost predicate FolderSchema(schema: CompiledSchema) {
    && WellFormed(schema) && InheritsOnly(schema)
    && (exists parent :: NameOf(schema, parent) == "parent" && RewriteOf(schema, "doc", "viewer") == Some(Inherits(parent)))
    && (exists parent :: NameOf(schema, parent) == "parent" && RewriteOf(schema, "folder", "viewer") == Some(OwnOrInherited(parent)))
    && schema.resolver.Relation("folder", "parent").Ok? && schema.resolver.Relation("doc", "parent").Ok?
    && (forall namespace, relation :: schema.resolver.Relation(namespace, relation).Ok? ==> ValidTypeName(relation))
  }

  lemma FolderRelations(schema: CompiledSchema, namespace: string, relation: string)
    requires WellFormed(schema) && schema.definitions == FOLDERS
    requires NameOf(schema, RelationId(0, 0)) == "parent" && NameOf(schema, RelationId(1, 0)) == "parent"
    requires schema.resolver.Relation(namespace, relation).Ok?
    ensures ValidTypeName(relation)
    ensures RewriteOf(schema, namespace, relation).None? || Inheriting(schema, RewriteOf(schema, namespace, relation).value)
  {
    hide WellFormed, NameOf, Inheriting;
    assert Inheriting(schema, OwnOrInherited(RelationId(0, 0))) && Inheriting(schema, Inherits(RelationId(1, 0))) by {
      TheyInherit(schema);
    }
    DefinedNames(schema, namespace, relation);
    var id :| DefinedAt(FOLDERS, namespace, relation, id) && schema.resolver.Relation(namespace, relation).value == RelationAt(FOLDERS, id);
    assert id.namespaceIndex in {0, 1} && id.relationIndex in {0, 1, 2};
  }

  lemma TheyInherit(schema: CompiledSchema)
    requires NameOf(schema, RelationId(0, 0)) == "parent" && NameOf(schema, RelationId(1, 0)) == "parent"
    ensures Inheriting(schema, OwnOrInherited(RelationId(0, 0))) && Inheriting(schema, Inherits(RelationId(1, 0)))
  {
  }

  lemma FoldersAreFolderSchema(schema: CompiledSchema)
    requires WellFormed(schema) && schema.definitions == FOLDERS
    ensures FolderSchema(schema)
  {
    hide WellFormed, Inheriting;
    FoundAt(schema, "folder", "parent", RelationId(0, 0));
    FoundAt(schema, "folder", "viewer", RelationId(0, 2));
    FoundAt(schema, "doc", "parent", RelationId(1, 0));
    FoundAt(schema, "doc", "viewer", RelationId(1, 1));
    forall namespace, relation | schema.resolver.Relation(namespace, relation).Ok?
      ensures ValidTypeName(relation)
      ensures RewriteOf(schema, namespace, relation).None? || Inheriting(schema, RewriteOf(schema, namespace, relation).value)
    {
      FolderRelations(schema, namespace, relation);
    }
    assert InheritsOnly(schema);
  }

  /** Every userset a row names lies on a lower object. */
  ghost predicate Descends(rows: seq<Relationship>, height: Object -> nat) {
    forall row :: row in rows && row.subject.UsersetSubject? ==> height(row.subject.entity) < height(row.resource)
  }

  lemma RewriteIs(schema: CompiledSchema, namespace: string, relation: string)
    requires schema.resolver.Relation(namespace, relation).Ok?
    ensures schema.resolver.Relation(namespace, relation).value.compiledRewrite == RewriteOf(schema, namespace, relation)
  {
  }

  lemma DescendingIsRanked(snapshot: Snapshot, rows: seq<Relationship>, height: Object -> nat, node: Node, e: CompiledExpression)
    requires snapshot.rows == Inserted(rows) && Descends(rows, height)
    requires e.This? || Inheriting(snapshot.schema, e)
    ensures RankedExpr(snapshot, (k: Node) => height(k.entity), height(node.entity), node, e)
  {
    RowsOnAreLive(snapshot.rows, node.entity, node.relation);
    RowsOnAreLive(snapshot.rows, node.entity, "parent");
    if e.Union? {
      assert RankedExpr(snapshot, (k: Node) => height(k.entity), height(node.entity), node, e.children[1]);
    }
  }

  /** Rows that descend make acyclic data. */
  lemma DescendingIsDecidable(snapshot: Snapshot, rows: seq<Relationship>, height: Object -> nat)
    requires FolderSchema(snapshot.schema) && snapshot.rows == Inserted(rows) && Descends(rows, height)
    ensures Decidable(snapshot, ANN)
  {
    hide WellFormed, Inheriting, RankedExpr, RankedThis;
    var rank: Rank := (node: Node) => height(node.entity);
    InsertedIsExact(rows, ANN);
    forall node: Node | snapshot.schema.resolver.Relation(node.entity.namespace, node.relation).Ok?
      ensures RankedDefinition(snapshot, rank, rank(node), node, snapshot.schema.resolver.Relation(node.entity.namespace, node.relation).value)
    {
      RewriteIs(snapshot.schema, node.entity.namespace, node.relation);
      var rewrite := RewriteOf(snapshot.schema, node.entity.namespace, node.relation);
      DescendingIsRanked(snapshot, rows, height, node, if rewrite.Some? then rewrite.value else This);
      ThisIsRanked(snapshot, rank, rank(node), node);
    }
    assert Acyclic(snapshot, rank);
  }

  lemma ThisIsRanked(snapshot: Snapshot, rank: Rank, bound: nat, node: Node)
    ensures RankedExpr(snapshot, rank, bound, node, This) == RankedThis(snapshot.rows, rank, bound, node)
  {
  }

  /** A row naming the subject as viewer of a folder makes it one. */
  lemma OwnViewer(snapshot: Snapshot, row: Relationship)
    requires FolderSchema(snapshot.schema) && Regular(snapshot) && Live(snapshot.rows, row)
    requires row.resource.namespace == "folder" && row.relation == "viewer" && MatchesSubject(row.subject, FilterOf(ANN))
    ensures Member(snapshot, ANN)(Node(row.resource, "viewer"))
  {
    hide Member, Regular, WellFormed, InheritsOnly;
    var val, node := Member(snapshot, ANN), Node(row.resource, "viewer");
    MemberSolves(snapshot, ANN);
    var e := RewriteOf(snapshot.schema, "folder", "viewer").value;
    assert DirectMember(snapshot.rows, ANN, node);
    assert ExprHolds(snapshot, ANN, val, node, e.children[0]);
    assert BodyHolds(snapshot, ANN, val, node);
  }

  lemma TupleIsHeld(rows: Rows, val: Valuation, row: Relationship, computed: string)
    requires Live(rows, row) && row.subject.UsersetSubject? && val(Node(row.subject.entity, computed))
    ensures TupleHolds(rows, val, row.resource, row.relation, computed)
  {
    RowsOnAreLive(rows, row.resource, row.relation);
  }

  lemma InheritingHolds(snapshot: Snapshot, val: Valuation, node: Node, e: CompiledExpression)
    requires Inheriting(snapshot.schema, e) && TupleHolds(snapshot.rows, val, node.entity, "parent", "viewer")
    ensures ExprHolds(snapshot, ANN, val, node, e)
  {
    hide TupleHolds, NameOf;
    var parent :| NameOf(snapshot.schema, parent) == "parent" && (e == Inherits(parent) || e == OwnOrInherited(parent));
    assert ExprHolds(snapshot, ANN, val, node, Inherits(parent));
    if e == OwnOrInherited(parent) {
      assert ExprHolds(snapshot, ANN, val, node, e.children[1]);
    }
  }

  /** A parent row hands the viewers of its folder down. */
  lemma InheritedViewer(snapshot: Snapshot, row: Relationship)
    requires FolderSchema(snapshot.schema) && Regular(snapshot) && Live(snapshot.rows, row)
    requires (row.resource.namespace == "folder" || row.resource.namespace == "doc") && row.relation == "parent" && row.subject.UsersetSubject?
    requires Member(snapshot, ANN)(Node(row.subject.entity, "viewer"))
    ensures Member(snapshot, ANN)(Node(row.resource, "viewer"))
  {
    hide Member, Regular, WellFormed, InheritsOnly, Live, ExprHolds, TupleHolds, NameOf;
    var val, node := Member(snapshot, ANN), Node(row.resource, "viewer");
    MemberSolves(snapshot, ANN);
    TupleIsHeld(snapshot.rows, val, row, "viewer");
    var e := RewriteOf(snapshot.schema, row.resource.namespace, "viewer").value;
    InheritingHolds(snapshot, val, node, e);
    assert BodyHolds(snapshot, ANN, val, node);
  }

  /** The search for the documents the subject may view, over stored rows. */
  function FolderWalk(schema: CompiledSchema, limits: EvaluationLimits, rows: seq<Relationship>): Walk {
    WalkOf(Snapshot(schema, Inserted(rows), None), LookupRequest(ANN, "viewer", "doc"), limits, PostedBy(rows))
  }

  ghost predicate RowsResolve(schema: CompiledSchema, rows: seq<Relationship>) {
    forall row :: row in rows ==> ValidRelationship(row) && schema.resolver.Relation(row.resource.namespace, row.relation).Ok?
  }

  /** A viewer of a document outside the confines of the walk is missed. */
  lemma UnreachedViewerIsMissed(w: Walk, schema: CompiledSchema, limits: EvaluationLimits, rows: seq<Relationship>, height: Object -> nat,
                                territory: set<User>, candidates: set<Object>, lost: Object)
    requires FolderSchema(schema) && RowsResolve(schema, rows) && Descends(rows, height) && w == FolderWalk(schema, limits, rows)
    requires Confines(w, territory, candidates) && lost !in candidates
    requires lost.namespace == "doc" && Member(w.snapshot, ANN)(Node(lost, "viewer"))
    ensures Misses(w, lost) && w.plan.Some? && Uncontested(w.plan.value.rules)
  {
    hide WellFormed, LookupProducerPlan, Member, Decidable, Yields, Confines, InheritsOnly, PostedBy, Descends, After;
    var parent :| RewriteOf(schema, "doc", "viewer") == Some(Inherits(parent));
    InheritedPlan(schema, parent);
    DescendingIsDecidable(w.snapshot, rows, height);
    PostedByPostsLive(rows);
    InsertedIsExact(rows, ANN);
    assert Sane(w);
    var resources := SaneWalkEnds(w);
    OutsideIsNotReturned(w, territory, candidates, lost);
  }

  const F := Object("folder", "f")
  const G := Object("folder", "g")
  const Y := Object("doc", "y")
  const VIEWS_F := Relationship(F, "viewer", DirectSubject(Object(USER_TYPE, "ann")))
  const X_OWNED := Relationship(X, "parent", UsersetSubject(F, "owner"))
  const Y_VIEWED := Relationship(Y, "parent", UsersetSubject(F, "viewer"))
  const G_VIEWED := Relationship(G, "parent", UsersetSubject(F, "viewer"))
  const X_IN_G := Relationship(X, "parent", UsersetSubject(G, "viewer"))

  lemma DecidableIsRegular(snapshot: Snapshot)
    requires Decidable(snapshot, ANN)
    ensures Regular(snapshot)
  {
  }

  const HIDING_ROWS := [VIEWS_F, X_OWNED, Y_VIEWED]
  const CHAINED_ROWS := [VIEWS_F, G_VIEWED, X_IN_G]

  function Height(entity: Object): nat { if entity == X || entity == Y then 2 else if entity == G then 1 else 0 }

  /** Where a row names the viewers of `f`, the walk follows the rows that do and nothing else. */
  lemma ViewersConfine(w: Walk, schema: CompiledSchema, limits: EvaluationLimits, rows: seq<Relationship>, child: Relationship, candidates: set<Object>)
    requires FolderSchema(schema) && w == FolderWalk(schema, limits, rows)
    requires child.relation == "parent" && child.subject == UsersetSubject(F, "viewer")
    requires forall row :: row in rows ==> row == VIEWS_F || row == child || row.subject == UsersetSubject(F, "owner") || row.subject == UsersetSubject(G, "viewer")
    requires child in rows && (child.resource.namespace == "doc" ==> child.resource in candidates)
    ensures Confines(w, {ANN, Userset(F, "viewer"), Userset(child.resource, "parent")}, candidates)
  {
    hide WellFormed, LookupProducerPlan, InheritsOnly, Expanded, TuplesFollowed, NamedFollowed, PrunableStays;
    var named, reached := Userset(F, "viewer"), Userset(child.resource, "parent");
    var territory := {ANN, named, reached};
    InsertedIsExact(rows, ANN);
    assert MatchesSubject(child.subject, FilterOf(named));
    SchemaLeadsNowhere(w, F, "viewer", territory, candidates);
    SchemaLeadsNowhere(w, child.resource, "parent", territory, candidates);
    RowsConfine(w, rows, ANN, VIEWS_F, territory, candidates);
    RowsConfine(w, rows, named, child, territory, candidates);
    RowsConfine(w, rows, reached, child, territory, candidates);
  }

  /** If at most one row names a subject, following it is following that row. */
  lemma RowsConfine(w: Walk, rows: seq<Relationship>, subject: User, only: Relationship, territory: set<User>, candidates: set<Object>)
    requires w.snapshot.rows == Inserted(rows)
    requires forall row :: row in rows && MatchesSubject(row.subject, FilterOf(subject)) ==> row == only
    requires Userset(only.resource, only.relation) in territory && (w.OfRequestedType(only.resource) ==> only.resource in candidates)
    ensures NamedFollowed(w, subject, territory, candidates) && PrunableStays(w, subject, territory, candidates)
  {
    InsertedIsExact(rows, subject);
  }

  /** Rows that name the object under another relation are only followed while no row names the computed
      userset itself: one row for `f#viewer` hides `x`, whose parent row names `f#owner`. */
  lemma ExactRowsHideOthers(limits: EvaluationLimits) returns (w: Walk)
    ensures w.limits == limits && Misses(w, X)
    ensures PrunesLeavesOnly(w) && w.plan.Some? && Uncontested(w.plan.value.rules) && !TupleRowsAreFound(w)
  {
    hide WellFormed, LookupProducerPlan, Member, Decidable, Yields, Confines, FolderSchema, Misses, Uncontested, PostedBy, FolderWalk,
         PrunesLeavesOnly, TupleRowsAreFound, RowsResolve, Descends, DistinctNames, NamespaceCompiled, Live, DirectExact;
    FoldersAreLegal();
    var schema := SchemaOf(FOLDERS);
    FoldersAreFolderSchema(schema);
    w := FolderWalk(schema, limits, HIDING_ROWS);
    FolderWalkIs(schema, limits, HIDING_ROWS);
    InsertedIsExact(HIDING_ROWS, ANN);
    assert VIEWS_F == HIDING_ROWS[0] && X_OWNED == HIDING_ROWS[1] && Y_VIEWED == HIDING_ROWS[2];
    FolderRowsResolve(schema, HIDING_ROWS);
    DocumentsAreLeaves(w, HIDING_ROWS);
    DescendingIsDecidable(w.snapshot, HIDING_ROWS, Height);
    DecidableIsRegular(w.snapshot);
    OwnViewer(w.snapshot, VIEWS_F);
    InheritedViewer(w.snapshot, X_OWNED);
    ViewersConfine(w, schema, limits, HIDING_ROWS, Y_VIEWED, {Y});
    UnreachedViewerIsMissed(w, schema, limits, HIDING_ROWS, Height, {ANN, Userset(F, "viewer"), Userset(Y, "parent")}, {Y}, X);
    PostedByPostsLive(HIDING_ROWS);
    ParentRowsAreNotFound(w, schema, HIDING_ROWS, X_OWNED, Y_VIEWED);
  }

  lemma FolderWalkIs(schema: CompiledSchema, limits: EvaluationLimits, rows: seq<Relationship>)
    ensures var w := FolderWalk(schema, limits, rows);
            && w.snapshot.schema == schema && w.snapshot.rows == Inserted(rows) && w.posted == PostedBy(rows)
            && w.limits == limits && w.request == LookupRequest(ANN, "viewer", "doc")
  {
  }

  lemma FolderNamesAreValid()
    ensures ValidObject(F) && ValidObject(G) && ValidObject(X) && ValidObject(Y) && ValidObject(Object(USER_TYPE, "ann"))
    ensures ValidTypeName("viewer") && ValidTypeName("owner") && ValidTypeName("parent")
  {
  }

  /** Rows of folders, in the shapes the examples use. */
  ghost predicate FolderRow(row: Relationship) {
    || row == VIEWS_F || row == X_OWNED || row == Y_VIEWED || row == G_VIEWED || row == X_IN_G
  }

  lemma FolderRowsResolve(schema: CompiledSchema, rows: seq<Relationship>)
    requires FolderSchema(schema) && forall row :: row in rows ==> FolderRow(row)
    ensures RowsResolve(schema, rows) && Descends(rows, Height)
  {
    hide WellFormed, InheritsOnly, ValidTypeName, ValidId;
    FolderNamesAreValid();
  }

  /** No row names a userset on a document. */
  lemma DocumentsAreLeaves(w: Walk, rows: seq<Relationship>)
    requires w.snapshot.rows == Inserted(rows) && w.request.resourceType == "doc" && forall row :: row in rows ==> FolderRow(row)
    ensures PrunesLeavesOnly(w)
  {
    InsertedIsExact(rows, ANN);
  }

  /** A parent row is not found if another row names the viewers of its folder and it does not. */
  lemma ParentRowsAreNotFound(w: Walk, schema: CompiledSchema, rows: seq<Relationship>, row: Relationship, other: Relationship)
    requires FolderSchema(schema) && w.snapshot.schema == schema && w.snapshot.rows == Inserted(rows) && w.posted == PostedBy(rows)
    requires row in rows && row.resource.namespace == "doc" && row.relation == "parent" && row.subject == UsersetSubject(F, "owner")
    requires other in rows && other.subject == UsersetSubject(F, "viewer")
    ensures !TupleRowsAreFound(w)
  {
    hide WellFormed, InheritsOnly, TupleFree;
    InsertedIsExact(rows, ANN);
    assert TupleIn(schema, "doc", "viewer", "parent", "viewer");
    assert TakesOver(schema, row, "viewer");
    assert MatchesSubject(other.subject, FilterOf(Userset(F, "viewer")));
  }

  /** A row that names the computed userset itself leads to its resource, but no further: `g` lies in `f`
      and `x` in `g`, each naming the viewers of the folder above, and `x` is not found. */
  lemma ExactRowsLeadNoFurther(limits: EvaluationLimits) returns (w: Walk)
    ensures w.limits == limits && Misses(w, X)
    ensures PrunesLeavesOnly(w) && w.plan.Some? && Uncontested(w.plan.value.rules) && !TupleRowsAreFound(w)
  {
    hide WellFormed, LookupProducerPlan, Member, Decidable, Yields, Confines, FolderSchema, Misses, Uncontested, PostedBy, FolderWalk,
         PrunesLeavesOnly, TupleRowsAreFound, RowsResolve, Descends, DistinctNames, NamespaceCompiled, Live, DirectExact;
    FoldersAreLegal();
    var schema := SchemaOf(FOLDERS);
    FoldersAreFolderSchema(schema);
    w := FolderWalk(schema, limits, CHAINED_ROWS);
    FolderWalkIs(schema, limits, CHAINED_ROWS);
    InsertedIsExact(CHAINED_ROWS, ANN);
    assert VIEWS_F == CHAINED_ROWS[0] && G_VIEWED == CHAINED_ROWS[1] && X_IN_G == CHAINED_ROWS[2];
    FolderRowsResolve(schema, CHAINED_ROWS);
    DocumentsAreLeaves(w, CHAINED_ROWS);
    DescendingIsDecidable(w.snapshot, CHAINED_ROWS, Height);
    DecidableIsRegular(w.snapshot);
    OwnViewer(w.snapshot, VIEWS_F);
    InheritedViewer(w.snapshot, G_VIEWED);
    InheritedViewer(w.snapshot, X_IN_G);
    ViewersConfine(w, schema, limits, CHAINED_ROWS, G_VIEWED, {});
    UnreachedViewerIsMissed(w, schema, limits, CHAINED_ROWS, Height, {ANN, Userset(F, "viewer"), Userset(G, "parent")}, {}, X);
    ParentRowsAreNotFree(w, schema, CHAINED_ROWS, X_IN_G);
  }

  /** Folders take their viewers over themselves. */
  lemma ParentRowsAreNotFree(w: Walk, schema: CompiledSchema, rows: seq<Relationship>, row: Relationship)
    requires FolderSchema(schema) && w.snapshot.schema == schema && w.snapshot.rows == Inserted(rows)
    requires row in rows && row.resource.namespace == "doc" && row.relation == "parent"
    requires row.subject.UsersetSubject? && row.subject.entity.namespace == "folder"
    ensures !TupleRowsAreFound(w)
  {
    hide WellFormed, InheritsOnly, Includes;
    InsertedIsExact(rows, ANN);
    assert TupleIn(schema, "doc", "viewer", "parent", "viewer");
    assert TakesOver(schema, row, "viewer");
    assert UsesTuple(RewriteOf(schema, "folder", "viewer").value.children[1], "parent", "viewer");
    assert TupleIn(schema, "folder", "viewer", "parent", "viewer");
    IncludesItself(schema, "folder", "viewer");
    assert TupleBelow(schema, "folder", "viewer", "parent", "viewer");
  }

  // ---------------------------------------------------------------- pruned rows

  /** Editors may edit; viewers are listed. */
  const EDITORS := [NamespaceDefinition("doc", [
    Plain("editor"),
    Ruled("can_edit", SourceComputed("editor"), ComputedUserset("editor", RelationId(0, 0), false)),
    Plain("viewer")])]
  const EDITS_X := Relationship(X, "editor", DirectSubject(Object(USER_TYPE, "ann")))
  const Y_FOR_EDITORS := Relationship(Y, "viewer", UsersetSubject(X, "can_edit"))
  const EDITOR_ROWS := [EDITS_X, Y_FOR_EDITORS]

  lemma EditorsAreLegal()
    ensures DistinctNames(EDITORS) && NamespaceCompiled(EDITORS, EDITORS[0])
  {
    assert DistinctRelations(EDITORS[0].relations);
    assert DefinedAt(EDITORS, "doc", "editor", RelationId(0, 0));
  }

  ghost predicate EditorSchema(schema: CompiledSchema) {
    && WellFormed(schema)
    && schema.resolver.Relation("doc", "editor").Ok? && RewriteOf(schema, "doc", "editor").None?
    && schema.resolver.Relation("doc", "viewer").Ok? && RewriteOf(schema, "doc", "viewer").None?
    && (exists editor :: NameOf(schema, editor) == "editor" && RewriteOf(schema, "doc", "can_edit") == Some(ComputedUserset("editor", editor, false)))
    && (forall namespace, relation :: schema.resolver.Relation(namespace, relation).Ok? ==>
          ValidTypeName(relation) && (relation != "can_edit" ==> RewriteOf(schema, namespace, relation).None?)
          && (relation == "can_edit" ==> namespace == "doc"))
  }

  lemma EditorsAreEditorSchema(schema: CompiledSchema)
    requires WellFormed(schema) && schema.definitions == EDITORS
    ensures EditorSchema(schema)
  {
    hide WellFormed;
    FoundAt(schema, "doc", "editor", RelationId(0, 0));
    FoundAt(schema, "doc", "can_edit", RelationId(0, 1));
    FoundAt(schema, "doc", "viewer", RelationId(0, 2));
    forall namespace, relation | schema.resolver.Relation(namespace, relation).Ok?
      ensures ValidTypeName(relation) && (relation != "can_edit" ==> RewriteOf(schema, namespace, relation).None?)
      ensures relation == "can_edit" ==> namespace == "doc"
    {
      DefinedNames(schema, namespace, relation);
      var id :| DefinedAt(EDITORS, namespace, relation, id) && schema.resolver.Relation(namespace, relation).value == RelationAt(EDITORS, id);
      assert id.relationIndex in {0, 1, 2};
    }
  }

  function EditorWalk(schema: CompiledSchema, limits: EvaluationLimits): Walk {
    WalkOf(Snapshot(schema, Inserted(EDITOR_ROWS), None), LookupRequest(ANN, "viewer", "doc"), limits, PostedBy(EDITOR_ROWS))
  }

  lemma ViewerPlan(schema: CompiledSchema)
    requires WellFormed(schema) && schema.resolver.Relation("doc", "viewer").Ok? && RewriteOf(schema, "doc", "viewer").None?
    ensures LookupProducerPlan(schema, "doc", "viewer") == Ok(Some(ProducerPlan(["viewer"], [Rule("viewer", ProvenWithoutCheck)])))
  {
    LookupsAgree(schema.resolver, schema.definitions, "doc", "viewer");
    var rule := Rule("viewer", ProvenWithoutCheck);
    var id := schema.resolver.IdOf("doc", "viewer").value;
    var definition := schema.resolver.ById(id).value;
    assert id in SchemaIds(schema) && definition.name == "viewer" && definition.compiledRewrite.None?;
    assert MergeOne([], rule) == [rule] && MergeRules([], [rule]) == MergeRules([rule], [rule][1..]) == [rule];
    assert DistinctRelationNames([rule], []) == DistinctRelationNames([rule][1..], [] + ["viewer"]) == ["viewer"];
    assert CollectRelation(schema, id, definition, {}) == Ok(Some([rule]));
  }

  ghost function EditorRank(): Rank { (node: Node) => if node.relation == "viewer" then 2 else if node.relation == "can_edit" then 1 else 0 }

  lemma EditorNodeIsRanked(snapshot: Snapshot, node: Node)
    requires EditorSchema(snapshot.schema) && snapshot.rows == Inserted(EDITOR_ROWS)
    requires snapshot.schema.resolver.Relation(node.entity.namespace, node.relation).Ok?
    ensures RankedDefinition(snapshot, EditorRank(), EditorRank()(node), node, snapshot.schema.resolver.Relation(node.entity.namespace, node.relation).value)
  {
    hide WellFormed;
    RewriteIs(snapshot.schema, node.entity.namespace, node.relation);
    if node.relation != "can_edit" {
      EditorRowsAreRanked(snapshot, node);
    }
  }

  lemma EditorRowsAreRanked(snapshot: Snapshot, node: Node)
    requires snapshot.rows == Inserted(EDITOR_ROWS)
    ensures RankedThis(snapshot.rows, EditorRank(), EditorRank()(node), node)
  {
    InsertedIsExact(EDITOR_ROWS, ANN);
    RowsOnAreLive(snapshot.rows, node.entity, node.relation);
  }

  lemma EditorsAreDecidable(snapshot: Snapshot)
    requires EditorSchema(snapshot.schema) && snapshot.rows == Inserted(EDITOR_ROWS)
    ensures Decidable(snapshot, ANN)
  {
    hide WellFormed, RankedDefinition, DirectExact, EditorRank;
    InsertedIsExact(EDITOR_ROWS, ANN);
    forall node: Node | snapshot.schema.resolver.Relation(node.entity.namespace, node.relation).Ok?
      ensures RankedDefinition(snapshot, EditorRank(), EditorRank()(node), node, snapshot.schema.resolver.Relation(node.entity.namespace, node.relation).value)
    {
      EditorNodeIsRanked(snapshot, node);
    }
    assert Acyclic(snapshot, EditorRank());
  }

  /** Ann edits `x`, so she may edit it, so she views `y`. */
  lemma EditorsAreViewers(snapshot: Snapshot)
    requires EditorSchema(snapshot.schema) && Regular(snapshot) && snapshot.rows == Inserted(EDITOR_ROWS)
    ensures Member(snapshot, ANN)(Node(Y, "viewer"))
  {
    hide Member, Regular, WellFormed;
    var val := Member(snapshot, ANN);
    MemberSolves(snapshot, ANN);
    InsertedIsExact(EDITOR_ROWS, ANN);
    assert EDITOR_ROWS[0] == EDITS_X && EDITOR_ROWS[1] == Y_FOR_EDITORS;
    assert MatchesSubject(EDITS_X.subject, FilterOf(ANN)) && DirectMember(snapshot.rows, ANN, Node(X, "editor"));
    assert BodyHolds(snapshot, ANN, val, Node(X, "editor"));
    assert BodyHolds(snapshot, ANN, val, Node(X, "can_edit"));
    RowsOnAreLive(snapshot.rows, Y, "viewer");
    assert ThroughUserset(snapshot.rows, val, Node(Y, "viewer"));
    assert BodyHolds(snapshot, ANN, val, Node(Y, "viewer"));
  }

  lemma NoRowNamesEditors()
    ensures !PostedBy(EDITOR_ROWS)(SubjectFilter("doc", None, Some("editor")))
  {
    var filter := SubjectFilter("doc", None, Some("editor"));
    assert |"can_edit"| != |"editor"|;
    assert !MatchesSubject(EDITS_X.subject, filter) && !MatchesSubject(Y_FOR_EDITORS.subject, filter);
    assert EDITOR_ROWS[0] == EDITS_X && EDITOR_ROWS[1] == Y_FOR_EDITORS;
  }

  lemma OneRowNamesAnn()
    ensures ReverseQuery(Inserted(EDITOR_ROWS), FilterOf(ANN)) == [EDITS_X]
  {
    var keep := (row: Relationship) => MatchesSubject(row.subject, FilterOf(ANN));
    assert EDITOR_ROWS == [EDITS_X] + [Y_FOR_EDITORS];
    SelectConcat([EDITS_X], [Y_FOR_EDITORS], keep);
    AllSelected([EDITS_X], keep);
    NoneSelected([Y_FOR_EDITORS], keep);
  }

  /** The only row that names the subject is pruned, and the walk is over. */
  lemma EditorWalkEndsAtOnce(w: Walk)
    requires w.plan == Some(ProducerPlan(["viewer"], [Rule("viewer", ProvenWithoutCheck)]))
    requires w.snapshot.rows == Inserted(EDITOR_ROWS) && w.posted == PostedBy(EDITOR_ROWS)
    requires w.request == LookupRequest(ANN, "viewer", "doc") && w.limits.maxLookupResults > 0
    ensures Yields(w, [])
  {
    hide Pending;
    var popped := Start(w).(frontier := []);
    assert Start(w).frontier[1..] == [];
    var rows := ReverseQuery(w.snapshot.rows, FilterOf(ANN));
    assert rows == [EDITS_X] by {
      OneRowNamesAnn();
    }
    var entry := FrontierEntry(ANN, SubjectProof(0, true));
    NoRowNamesEditors();
    var sampled := Sampled(w, popped, EDITS_X);
    assert RowStep(w, popped, EDITS_X, entry) == Ok(sampled);
    assert rows[1..] == [] && RowsStep(w, sampled, [], entry) == Ok(sampled);
    assert RowsStep(w, popped, rows, entry) == Ok(sampled);
    assert ValidUser(ANN) && NamedRowsStep(w, popped, entry) == Ok(sampled);
    assert After(w, 0) == Ok(Start(w)) && After(w, 1) == Step(w, Start(w)) == Ok(sampled);
    assert FinishedAfter(w, 1);
  }

  /** A row on an unplanned relation is skipped if no row names that userset, although the schema leads on
      from it: `y` is listed for those who may edit `x`, whom no row names as editors. */
  lemma PrunedRowsLeadOn(limits: EvaluationLimits) returns (w: Walk)
    requires limits.maxLookupResults > 0
    ensures w.limits == limits && Misses(w, Y) && Yields(w, [])
    ensures TupleRowsAreFound(w) && w.plan.Some? && Uncontested(w.plan.value.rules) && !PrunesLeavesOnly(w)
  {
    hide WellFormed, LookupProducerPlan, Member, Decidable, EditorSchema, PostedBy, Yields;
    EditorsAreLegal();
    var schema := SchemaOf(EDITORS);
    EditorsAreEditorSchema(schema);
    w := EditorWalk(schema, limits);
    assert WellFormed(schema) && schema.resolver.Relation("doc", "viewer").Ok? && RewriteOf(schema, "doc", "viewer").None? by {
      EditorViewer(schema);
    }
    ViewerPlan(schema);
    EditorWalkEndsAtOnce(w);
    EditorsAreDecidable(w.snapshot);
    DecidableIsRegular(w.snapshot);
    EditorsAreViewers(w.snapshot);
    PostedByPostsLive(EDITOR_ROWS);
    NothingYielded(w, Y);
    EditorRowIsPrunable(w);
    EditorsTakeNothingOver(w);
  }

  lemma EditorViewer(schema: CompiledSchema)
    requires EditorSchema(schema)
    ensures WellFormed(schema) && schema.resolver.Relation("doc", "viewer").Ok? && RewriteOf(schema, "doc", "viewer").None?
  {
  }

  lemma NothingYielded(w: Walk, lost: Object)
    requires Yields(w, [])
    ensures forall resources :: Yields(w, resources) ==> lost !in resources
  {
    hide Yields;
    forall resources | Yields(w, resources) ensures lost !in resources {
      YieldsOnce(w, resources, []);
    }
  }

  lemma EditorRowIsPrunable(w: Walk)
    requires w.snapshot.rows == Inserted(EDITOR_ROWS) && w.request.resourceType == "doc"
    requires w.plan.Some? && w.plan.value.relations == ["viewer"]
    ensures !PrunesLeavesOnly(w)
  {
    InsertedIsExact(EDITOR_ROWS, ANN);
    assert EDITOR_ROWS[0] == EDITS_X && EDITOR_ROWS[1] == Y_FOR_EDITORS;
    assert w.Prunable(EDITS_X) && Live(w.snapshot.rows, Y_FOR_EDITORS);
    assert Referenced(w.snapshot.rows, X);
  }

  lemma EditorsTakeNothingOver(w: Walk)
    requires EditorSchema(w.snapshot.schema)
    ensures TupleRowsAreFound(w)
  {
    hide WellFormed;
    forall row, computed ensures !TakesOver(w.snapshot.schema, row, computed) {
      forall owner ensures !TupleIn(w.snapshot.schema, row.resource.namespace, owner, row.relation, computed) {
        if w.snapshot.schema.resolver.Relation(row.resource.namespace, owner).Ok? {
          RewriteIs(w.snapshot.schema, row.resource.namespace, owner);
        }
      }
    }
  }
}
