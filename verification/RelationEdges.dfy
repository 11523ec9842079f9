/** Which relations may follow from which by the schema alone: the edges a resource lookup walks
    between the rows it finds. */
module RelationEdges {
  import opened Vocabulary
  import opened Schema
  import opened CheckSpec
  import opened Planner
  import opened TextOrder
  import opened RelationReach

  function RelationCanInclude(schema: CompiledSchema, id: RelationId, source: string, visiting: set<RelationId>): Result<bool, EvaluationError>
    decreases |SchemaIds(schema) - visiting|, 0
  {
    if id in visiting then Ok(false)
    else
      match schema.resolver.ById(id)
      case None => Err(UnresolvedRelationId)
      case Some(definition) =>
        assert id in SchemaIds(schema);
        assert SchemaIds(schema) - (visiting + {id}) == SchemaIds(schema) - visiting - {id};
        match definition.compiledRewrite
        case None => Ok(false)
        case Some(e) => ExpressionCanInclude(schema, definition.name, e, source, visiting + {id})
  }

  /** Whether holding `source` on an object may make one hold the relation whose rewrite is `e`. */
  function ExpressionCanInclude(schema: CompiledSchema, current: string, e: CompiledExpression, source: string, visiting: set<RelationId>)
    : Result<bool, EvaluationError>
    decreases |SchemaIds(schema) - visiting|, 1, e
  {
    match e
    case This => Ok(current == source)
    case ComputedUserset(relation, id, targetHasRewrite) =>
      if relation == source then Ok(true)
      else if !targetHasRewrite then Ok(false)
      else RelationCanInclude(schema, id, source, visiting)
    case TupleToUserset(_, _, _) => Ok(false)
    case Union(children) => AnyCanInclude(schema, current, children, source, visiting)
    case Intersection(children) => AnyCanInclude(schema, current, children, source, visiting)
    case Exclusion(base, _) => ExpressionCanInclude(schema, current, base, source, visiting)
  }

  function AnyCanInclude(schema: CompiledSchema, current: string, children: seq<CompiledExpression>, source: string, visiting: set<RelationId>)
    : Result<bool, EvaluationError>
    decreases |SchemaIds(schema) - visiting|, 1, children
  {
    if children == [] then Ok(false)
    else
      var first :- ExpressionCanInclude(schema, current, children[0], source, visiting);
      if first then Ok(true) else AnyCanInclude(schema, current, children[1..], source, visiting)
  }

  /** The other relations of a namespace that may follow from `source` on the same object. */
  function SameObjectExpansions(schema: CompiledSchema, objectType: string, source: string): Result<seq<string>, EvaluationError> {
    match schema.resolver.Namespace(objectType)
    case Err(error) => Err(SchemaFailure(error))
    case Ok(namespace) => ExpansionsAmong(schema, objectType, Sorted(NamesIn(namespace.relations)), source)
  }

  function NamesIn(relations: seq<RelationDefinition>): seq<string> {
    seq(|relations|, j requires 0 <= j < |relations| => relations[j].name)
  }

  function ExpansionsAmong(schema: CompiledSchema, objectType: string, names: seq<string>, source: string): Result<seq<string>, EvaluationError>
  {
    if names == [] then Ok([])
    else if names[0] == source then ExpansionsAmong(schema, objectType, names[1..], source)
    else
      match schema.resolver.IdOf(objectType, names[0])
      case Err(error) => Err(SchemaFailure(error))
      case Ok(id) =>
        var includes :- RelationCanInclude(schema, id, source, {});
        var rest :- ExpansionsAmong(schema, objectType, names[1..], source);
        Ok(if includes then [names[0]] + rest else rest)
  }

  /** A tuple-to-userset edge: a row on `tupleset` naming the object may give `target` on its resource. */
  datatype TupleTarget = TupleTarget(resourceType: string, tupleset: string, computed: string, target: string)

  function NameCanInclude(schema: CompiledSchema, objectType: string, relation: string, source: string): Result<bool, EvaluationError> {
    if relation == source then Ok(true)
    else
      match schema.resolver.IdOf(objectType, relation)
      case Err(_) => Ok(false)
      case Ok(id) => RelationCanInclude(schema, id, source, {})
  }

  function TupleTargetsOf(schema: CompiledSchema, ownerType: string, ownerRelation: string, e: CompiledExpression, intermediate: string, source: string, visiting: set<RelationId>)
    : Result<seq<TupleTarget>, EvaluationError>
    decreases |SchemaIds(schema) - visiting|, e
  {
    match e
    case This => Ok([])
    case ComputedUserset(_, id, targetHasRewrite) =>
      if !targetHasRewrite || id in visiting then Ok([])
      else
        (match schema.resolver.ById(id)
         case None => Err(UnresolvedRelationId)
         case Some(definition) =>
           assert id in SchemaIds(schema);
           assert SchemaIds(schema) - (visiting + {id}) == SchemaIds(schema) - visiting - {id};
           match definition.compiledRewrite
           case None => Ok([])
           case Some(inner) => TupleTargetsOf(schema, ownerType, ownerRelation, inner, intermediate, source, visiting + {id}))
    case TupleToUserset(tupleset, _, computed) =>
      var includes :- NameCanInclude(schema, intermediate, computed, source);
      Ok(if includes then [TupleTarget(ownerType, tupleset, computed, ownerRelation)] else [])
    case Union(children) => TupleTargetsAmong(schema, ownerType, ownerRelation, children, intermediate, source, visiting)
    case Intersection(children) => TupleTargetsAmong(schema, ownerType, ownerRelation, children, intermediate, source, visiting)
    case Exclusion(base, _) => TupleTargetsOf(schema, ownerType, ownerRelation, base, intermediate, source, visiting)
  }

  function TupleTargetsAmong(schema: CompiledSchema, ownerType: string, ownerRelation: string, children: seq<CompiledExpression>, intermediate: string, source: string, visiting: set<RelationId>)
    : Result<seq<TupleTarget>, EvaluationError>
    decreases |SchemaIds(schema) - visiting|, children
  {
    if children == [] then Ok([])
    else
      var first :- TupleTargetsOf(schema, ownerType, ownerRelation, children[0], intermediate, source, visiting);
      var rest :- TupleTargetsAmong(schema, ownerType, ownerRelation, children[1..], intermediate, source, visiting);
      Ok(first + rest)
  }

  function TupleTargetsInNamespace(schema: CompiledSchema, ownerType: string, relations: seq<RelationDefinition>, intermediate: string, source: string)
    : Result<seq<TupleTarget>, EvaluationError>
  {
    if relations == [] then Ok([])
    else
      var first :-
        match relations[0].compiledRewrite
        case None => Ok([])
        case Some(e) => TupleTargetsOf(schema, ownerType, relations[0].name, e, intermediate, source, {});
      var rest :- TupleTargetsInNamespace(schema, ownerType, relations[1..], intermediate, source);
      Ok(first + rest)
  }

  function TupleTargets(schema: CompiledSchema, definitions: seq<NamespaceDefinition>, intermediate: string, source: string)
    : Result<seq<TupleTarget>, EvaluationError>
  {
    if definitions == [] then Ok([])
    else
      var first :- TupleTargetsInNamespace(schema, definitions[0].name, definitions[0].relations, intermediate, source);
      var rest :- TupleTargets(schema, definitions[1..], intermediate, source);
      Ok(first + rest)
  }

  // ---------------------------------------------------------------- edges lead to named relations

  ghost predicate Named(relations: seq<RelationDefinition>, name: string) {
    exists j :: 0 <= j < |relations| && relations[j].name == name
  }

  /** The relation names of a list of definitions: finitely many. */
  function RelationNames(definitions: seq<NamespaceDefinition>): set<string> {
    set i, j | 0 <= i < |definitions| && 0 <= j < |definitions[i].relations| :: definitions[i].relations[j].name
  }

  lemma {:induction false} ExpansionsAreNames(schema: CompiledSchema, objectType: string, names: seq<string>, source: string, expansion: string)
    requires ExpansionsAmong(schema, objectType, names, source).Ok?
    requires expansion in ExpansionsAmong(schema, objectType, names, source).value
    ensures expansion in names && expansion != source
  {
    if names[0] == source || expansion in ExpansionsAmong(schema, objectType, names[1..], source).value {
      ExpansionsAreNames(schema, objectType, names[1..], source, expansion);
    }
  }

  lemma SortedNames(relations: seq<RelationDefinition>)
    ensures InOrder(Sorted(NamesIn(relations))) && multiset(Sorted(NamesIn(relations))) == multiset(NamesIn(relations))
    ensures forall r :: r in Sorted(NamesIn(relations)) <==> Named(relations, r)
  {
    var names := NamesIn(relations);
    SortingSorts(names);
    forall r ensures r in Sorted(names) <==> Named(relations, r) {
      assert r in Sorted(names) <==> r in multiset(Sorted(names));
      assert r in names <==> r in multiset(names);
      if Named(relations, r) {
        var j :| 0 <= j < |relations| && relations[j].name == r;
        assert names[j] == r;
      }
    }
  }

  /** Same-object edges stay within the schema's relation names. */
  lemma SameObjectEdgesAreNamed(schema: CompiledSchema, objectType: string, source: string)
    requires SameObjectExpansions(schema, objectType, source).Ok?
    ensures forall expansion :: expansion in SameObjectExpansions(schema, objectType, source).value ==>
              expansion in RelationNames(schema.resolver.definitions)
  {
    var relations := schema.resolver.Namespace(objectType).value.relations;
    var i := schema.resolver.namespaceIndexes[objectType];
    assert relations == schema.resolver.definitions[i].relations;
    forall expansion | expansion in SameObjectExpansions(schema, objectType, source).value
      ensures expansion in RelationNames(schema.resolver.definitions)
    {
      ExpansionsAreNames(schema, objectType, Sorted(NamesIn(relations)), source, expansion);
      SortedNames(relations);
      var j :| 0 <= j < |relations| && relations[j].name == expansion;
      assert schema.resolver.definitions[i].relations[j].name == expansion;
    }
  }

  lemma {:induction false} TargetsOfName(schema: CompiledSchema, ownerType: string, ownerRelation: string, e: CompiledExpression,
                                         intermediate: string, source: string, visiting: set<RelationId>)
    requires TupleTargetsOf(schema, ownerType, ownerRelation, e, intermediate, source, visiting).Ok?
    ensures forall t :: t in TupleTargetsOf(schema, ownerType, ownerRelation, e, intermediate, source, visiting).value ==> t.target == ownerRelation
    decreases |SchemaIds(schema) - visiting|, e
  {
    match e
    case ComputedUserset(_, id, targetHasRewrite) =>
      if targetHasRewrite && id !in visiting {
        var definition := schema.resolver.ById(id).value;
        assert id in SchemaIds(schema);
        assert SchemaIds(schema) - (visiting + {id}) == SchemaIds(schema) - visiting - {id};
        if definition.compiledRewrite.Some? {
          TargetsOfName(schema, ownerType, ownerRelation, definition.compiledRewrite.value, intermediate, source, visiting + {id});
        }
      }
    case Union(children) => TargetsAmongName(schema, ownerType, ownerRelation, children, intermediate, source, visiting);
    case Intersection(children) => TargetsAmongName(schema, ownerType, ownerRelation, children, intermediate, source, visiting);
    case Exclusion(base, _) => TargetsOfName(schema, ownerType, ownerRelation, base, intermediate, source, visiting);
    case _ =>
  }

  lemma {:induction false} TargetsAmongName(schema: CompiledSchema, ownerType: string, ownerRelation: string, children: seq<CompiledExpression>,
                                            intermediate: string, source: string, visiting: set<RelationId>)
    requires TupleTargetsAmong(schema, ownerType, ownerRelation, children, intermediate, source, visiting).Ok?
    ensures forall t :: t in TupleTargetsAmong(schema, ownerType, ownerRelation, children, intermediate, source, visiting).value ==> t.target == ownerRelation
    decreases |SchemaIds(schema) - visiting|, children
  {
    if children != [] {
      TargetsOfName(schema, ownerType, ownerRelation, children[0], intermediate, source, visiting);
      TargetsAmongName(schema, ownerType, ownerRelation, children[1..], intermediate, source, visiting);
    }
  }

  lemma {:induction false} TargetsInNamespaceAreNamed(schema: CompiledSchema, ownerType: string, relations: seq<RelationDefinition>,
                                                      intermediate: string, source: string)
    requires TupleTargetsInNamespace(schema, ownerType, relations, intermediate, source).Ok?
    ensures forall t :: t in TupleTargetsInNamespace(schema, ownerType, relations, intermediate, source).value ==>
              exists j :: 0 <= j < |relations| && relations[j].name == t.target
  {
    if relations != [] {
      TargetsInNamespaceAreNamed(schema, ownerType, relations[1..], intermediate, source);
      var rest := TupleTargetsInNamespace(schema, ownerType, relations[1..], intermediate, source).value;
      if relations[0].compiledRewrite.Some? {
        TargetsOfName(schema, ownerType, relations[0].name, relations[0].compiledRewrite.value, intermediate, source, {});
      }
      forall t | t in TupleTargetsInNamespace(schema, ownerType, relations, intermediate, source).value
        ensures exists j :: 0 <= j < |relations| && relations[j].name == t.target
      {
        if t in rest {
          var j :| 0 <= j < |relations[1..]| && relations[1..][j].name == t.target;
          assert relations[j + 1].name == t.target;
        } else {
          assert relations[0].name == t.target;
        }
      }
    }
  }

  /** Tuple-to-userset edges lead to relations the definitions name. */
  lemma {:induction false} TupleEdgesAreNamed(schema: CompiledSchema, definitions: seq<NamespaceDefinition>, intermediate: string, source: string)
    requires TupleTargets(schema, definitions, intermediate, source).Ok?
    ensures forall t :: t in TupleTargets(schema, definitions, intermediate, source).value ==> t.target in RelationNames(definitions)
  {
    if definitions != [] {
      TargetsInNamespaceAreNamed(schema, definitions[0].name, definitions[0].relations, intermediate, source);
      TupleEdgesAreNamed(schema, definitions[1..], intermediate, source);
      forall t | t in TupleTargets(schema, definitions, intermediate, source).value ensures t.target in RelationNames(definitions) {
        if t.target in RelationNames(definitions[1..]) {
          var i, j :| 0 <= i < |definitions[1..]| && 0 <= j < |definitions[1..][i].relations| && definitions[1..][i].relations[j].name == t.target;
          assert definitions[i + 1].relations[j].name == t.target;
        } else {
          var j :| 0 <= j < |definitions[0].relations| && definitions[0].relations[j].name == t.target;
        }
      }
    }
  }

  // ---------------------------------------------------------------- the edges found are all there are

  /** `id` is where `relation` of the namespace is defined. */
  ghost predicate Located(schema: CompiledSchema, namespace: string, relation: string, id: RelationId) {
    && schema.resolver.Relation(namespace, relation).Ok?
    && schema.resolver.ById(id) == Some(schema.resolver.Relation(namespace, relation).value)
  }

  /** No relation still being visited is named on the way. */
  ghost predicate Avoids(schema: CompiledSchema, visiting: set<RelationId>, names: seq<string>) {
    forall id :: id in visiting && schema.resolver.ById(id).Some? ==> schema.resolver.ById(id).value.name !in names
  }

  lemma LocatedIsLinked(schema: CompiledSchema, namespace: string, relation: string, id: RelationId)
    requires WellFormed(schema) && Located(schema, namespace, relation, id)
    ensures id in SchemaIds(schema)
    ensures schema.resolver.ById(id).value.name == relation
    ensures var rewrite := RewriteOf(schema, namespace, relation);
            schema.resolver.ById(id).value.compiledRewrite == rewrite && (rewrite.Some? ==> Linked(schema, namespace, rewrite.value))
  {
    FoundIsLinked(schema, namespace, relation);
  }

  lemma VisitingShrinks(schema: CompiledSchema, id: RelationId, visiting: set<RelationId>)
    requires id in SchemaIds(schema) && id !in visiting
    ensures |SchemaIds(schema) - (visiting + {id})| < |SchemaIds(schema) - visiting|
  {
    assert SchemaIds(schema) - (visiting + {id}) == SchemaIds(schema) - visiting - {id};
  }

  /** The search over a compiled schema cannot fail, and what it finds is included. */
  lemma {:induction false} RelationSearchIsSound(schema: CompiledSchema, namespace: string, relation: string, id: RelationId,
                                                 source: string, visiting: set<RelationId>)
    requires WellFormed(schema) && Located(schema, namespace, relation, id) && relation != source
    ensures RelationCanInclude(schema, id, source, visiting).Ok?
    ensures RelationCanInclude(schema, id, source, visiting).value ==> Includes(schema, namespace, relation, source)
    decreases |SchemaIds(schema) - visiting|, 0
  {
    hide WellFormed, Includes;
    LocatedIsLinked(schema, namespace, relation, id);
    var rewrite := RewriteOf(schema, namespace, relation);
    if id !in visiting && rewrite.Some? {
      VisitingShrinks(schema, id, visiting);
      ExpressionSearchIsSound(schema, namespace, relation, rewrite.value, source, visiting + {id});
      if ExpressionCanInclude(schema, relation, rewrite.value, source, visiting + {id}).value {
        var via :| Uses(rewrite.value, via) && Includes(schema, namespace, via, source);
        IncludesThroughEdge(schema, namespace, relation, via, source);
      }
    }
  }

  lemma {:induction false} ExpressionSearchIsSound(schema: CompiledSchema, namespace: string, current: string, e: CompiledExpression,
                                                   source: string, visiting: set<RelationId>)
    requires WellFormed(schema) && Linked(schema, namespace, e) && current != source
    ensures ExpressionCanInclude(schema, current, e, source, visiting).Ok?
    ensures ExpressionCanInclude(schema, current, e, source, visiting).value ==>
              exists via :: Uses(e, via) && Includes(schema, namespace, via, source)
    decreases |SchemaIds(schema) - visiting|, 1, e
  {
    hide WellFormed, Includes;
    match e
    case ComputedUserset(used, id, targetHasRewrite) =>
      if used == source {
        IncludesItself(schema, namespace, source);
        assert Uses(e, source);
      } else if targetHasRewrite {
        RelationSearchIsSound(schema, namespace, used, id, source, visiting);
        assert Uses(e, used);
      }
    case Union(children) => AnySearchIsSound(schema, namespace, current, children, source, visiting);
    case Intersection(children) => AnySearchIsSound(schema, namespace, current, children, source, visiting);
    case Exclusion(base, _) => ExpressionSearchIsSound(schema, namespace, current, base, source, visiting);
    case _ =>
  }

  lemma {:induction false} AnySearchIsSound(schema: CompiledSchema, namespace: string, current: string, children: seq<CompiledExpression>,
                                            source: string, visiting: set<RelationId>)
    requires WellFormed(schema) && current != source
    requires forall i :: 0 <= i < |children| ==> Linked(schema, namespace, children[i])
    ensures AnyCanInclude(schema, current, children, source, visiting).Ok?
    ensures AnyCanInclude(schema, current, children, source, visiting).value ==>
              exists i, via :: 0 <= i < |children| && Uses(children[i], via) && Includes(schema, namespace, via, source)
    decreases |SchemaIds(schema) - visiting|, 1, children
  {
    hide WellFormed, Includes;
    if children != [] {
      ExpressionSearchIsSound(schema, namespace, current, children[0], source, visiting);
      if !ExpressionCanInclude(schema, current, children[0], source, visiting).value {
        AnySearchIsSound(schema, namespace, current, children[1..], source, visiting);
        if AnyCanInclude(schema, current, children[1..], source, visiting).value {
          var i, via :| 0 <= i < |children[1..]| && Uses(children[1..][i], via) && Includes(schema, namespace, via, source);
          assert Uses(children[i + 1], via);
        }
      }
    }
  }

  /** A path without repetition that stays clear of what is being visited is found. */
  lemma {:induction false} RelationSearchIsComplete(schema: CompiledSchema, namespace: string, relation: string, id: RelationId,
                                                    source: string, visiting: set<RelationId>, path: seq<string>)
    requires WellFormed(schema) && Located(schema, namespace, relation, id) && relation != source
    requires PathBetween(schema, namespace, path, relation, source) && Simple(path) && Avoids(schema, visiting, path)
    ensures RelationCanInclude(schema, id, source, visiting) == Ok(true)
    decreases |SchemaIds(schema) - visiting|, 0
  {
    hide WellFormed;
    LocatedIsLinked(schema, namespace, relation, id);
    VisitingShrinks(schema, id, visiting);
    assert Edge(schema, namespace, path[0], path[1]);
    var e := RewriteOf(schema, namespace, relation).value;
    assert PathBetween(schema, namespace, path[1..], path[1], source);
    ExpressionSearchIsComplete(schema, namespace, relation, e, source, visiting + {id}, path[1..]);
  }

  lemma {:induction false} ExpressionSearchIsComplete(schema: CompiledSchema, namespace: string, current: string, e: CompiledExpression,
                                                      source: string, visiting: set<RelationId>, path: seq<string>)
    requires WellFormed(schema) && Linked(schema, namespace, e) && current != source
    requires path != [] && PathBetween(schema, namespace, path, path[0], source) && Simple(path) && Avoids(schema, visiting, path)
    requires Uses(e, path[0])
    ensures ExpressionCanInclude(schema, current, e, source, visiting) == Ok(true)
    decreases |SchemaIds(schema) - visiting|, 1, e
  {
    hide WellFormed;
    match e
    case ComputedUserset(used, id, targetHasRewrite) =>
      if used != source {
        assert Edge(schema, namespace, path[0], path[1]);
        RelationSearchIsComplete(schema, namespace, used, id, source, visiting, path);
      }
    case Union(children) =>
      var i :| 0 <= i < |children| && Uses(children[i], path[0]);
      AnySearchIsComplete(schema, namespace, current, children, source, visiting, path, i);
    case Intersection(children) =>
      var i :| 0 <= i < |children| && Uses(children[i], path[0]);
      AnySearchIsComplete(schema, namespace, current, children, source, visiting, path, i);
    case Exclusion(base, _) => ExpressionSearchIsComplete(schema, namespace, current, base, source, visiting, path);
  }

  lemma {:induction false} AnySearchIsComplete(schema: CompiledSchema, namespace: string, current: string, children: seq<CompiledExpression>,
                                               source: string, visiting: set<RelationId>, path: seq<string>, i: nat)
    requires WellFormed(schema) && current != source
    requires forall k :: 0 <= k < |children| ==> Linked(schema, namespace, children[k])
    requires path != [] && PathBetween(schema, namespace, path, path[0], source) && Simple(path) && Avoids(schema, visiting, path)
    requires i < |children| && Uses(children[i], path[0])
    ensures AnyCanInclude(schema, current, children, source, visiting) == Ok(true)
    decreases |SchemaIds(schema) - visiting|, 1, children
  {
    hide WellFormed, PathBetween;
    if i == 0 {
      ExpressionSearchIsComplete(schema, namespace, current, children[0], source, visiting, path);
    } else {
      ExpressionSearchIsSound(schema, namespace, current, children[0], source, visiting);
      AnySearchIsComplete(schema, namespace, current, children[1..], source, visiting, path, i - 1);
    }
  }

  /** From nothing visited, the search decides inclusion. */
  lemma SearchDecidesInclusion(schema: CompiledSchema, namespace: string, relation: string, id: RelationId, source: string)
    requires WellFormed(schema) && Located(schema, namespace, relation, id) && relation != source
    ensures RelationCanInclude(schema, id, source, {}) == Ok(Includes(schema, namespace, relation, source))
  {
    RelationSearchIsSound(schema, namespace, relation, id, source, {});
    if Includes(schema, namespace, relation, source) {
      var path := SimpleSteps(schema, namespace, relation, source);
      RelationSearchIsComplete(schema, namespace, relation, id, source, {}, path);
    }
  }

  lemma {:induction false} ExpansionsAmongAreExact(schema: CompiledSchema, objectType: string, names: seq<string>, source: string)
    requires WellFormed(schema) && InOrder(names)
    requires forall j :: 0 <= j < |names| ==> schema.resolver.Relation(objectType, names[j]).Ok?
    ensures ExpansionsAmong(schema, objectType, names, source).Ok?
    ensures InOrder(ExpansionsAmong(schema, objectType, names, source).value)
    ensures forall r :: r in ExpansionsAmong(schema, objectType, names, source).value <==>
              r != source && Includes(schema, objectType, r, source) && r in names
  {
    hide WellFormed, Includes, RelationCanInclude, AtOrBelow;
    if names != [] {
      var first := names[0];
      ExpansionsAmongAreExact(schema, objectType, names[1..], source);
      if first != source {
        IdIsLocated(schema, objectType, first);
        SearchDecidesInclusion(schema, objectType, first, schema.resolver.IdOf(objectType, first).value, source);
      }
      assert names == [first] + names[1..];
      var rest := ExpansionsAmong(schema, objectType, names[1..], source).value;
      forall i | 0 <= i < |rest| ensures AtOrBelow(first, rest[i]) {
        assert rest[i] in rest;
        var j :| 0 <= j < |names[1..]| && names[1..][j] == rest[i];
        assert names[j + 1] == rest[i];
      }
      OrderedWithHead(first, rest);
    }
  }

  lemma IdIsLocated(schema: CompiledSchema, namespace: string, relation: string)
    requires WellFormed(schema) && schema.resolver.Relation(namespace, relation).Ok?
    ensures schema.resolver.IdOf(namespace, relation).Ok?
    ensures Located(schema, namespace, relation, schema.resolver.IdOf(namespace, relation).value)
  {
    LookupsAgree(schema.resolver, schema.definitions, namespace, relation);
  }

  lemma NamedIsDefined(schema: CompiledSchema, objectType: string)
    requires WellFormed(schema) && schema.resolver.Namespace(objectType).Ok?
    ensures forall r :: schema.resolver.Relation(objectType, r).Ok? <==> Named(schema.resolver.Namespace(objectType).value.relations, r)
  {
    var relations := schema.resolver.Namespace(objectType).value.relations;
    forall r ensures schema.resolver.Relation(objectType, r).Ok? <==> Named(relations, r) {
      assert IndexesRelations(schema.resolver.relationIndexes[objectType], relations);
      if Named(relations, r) {
        var j :| 0 <= j < |relations| && relations[j].name == r;
        assert schema.resolver.relationIndexes[objectType][relations[j].name] == j;
      }
    }
  }

  /** The same-object expansions of a relation are exactly the other relations of the namespace that
      include it, in the order of their names; the search never fails where the namespace exists. */
  lemma SameObjectExpansionsAreExact(schema: CompiledSchema, objectType: string, source: string)
    requires WellFormed(schema) && schema.resolver.Namespace(objectType).Ok?
    ensures SameObjectExpansions(schema, objectType, source).Ok? && InOrder(SameObjectExpansions(schema, objectType, source).value)
    ensures forall r :: r in SameObjectExpansions(schema, objectType, source).value <==>
              r != source && Includes(schema, objectType, r, source) && schema.resolver.Relation(objectType, r).Ok?
  {
    hide Includes;
    var relations := schema.resolver.Namespace(objectType).value.relations;
    NamedIsDefined(schema, objectType);
    SortedNames(relations);
    ExpansionsAmongAreExact(schema, objectType, Sorted(NamesIn(relations)), source);
  }

  lemma NameSearchDecidesInclusion(schema: CompiledSchema, objectType: string, relation: string, source: string)
    requires WellFormed(schema)
    ensures NameCanInclude(schema, objectType, relation, source) == Ok(Includes(schema, objectType, relation, source))
  {
    LookupsAgree(schema.resolver, schema.definitions, objectType, relation);
    if relation == source {
      IncludesItself(schema, objectType, source);
    } else if schema.resolver.Relation(objectType, relation).Ok? {
      SearchDecidesInclusion(schema, objectType, relation, schema.resolver.IdOf(objectType, relation).value, source);
    } else {
      UndefinedIncludesNothing(schema, objectType, relation, source);
    }
  }

  lemma UndefinedIncludesNothing(schema: CompiledSchema, namespace: string, relation: string, source: string)
    requires RewriteOf(schema, namespace, relation).None? && relation != source
    ensures !Includes(schema, namespace, relation, source)
  {
    forall path ensures !PathBetween(schema, namespace, path, relation, source) {
      if |path| > 1 && path[0] == relation {
        assert !Edge(schema, namespace, path[0], path[1]);
      }
    }
  }

  /** `e` itself contains the tuple-to-userset rewrite, or a relation it refers to leads to it. */
  ghost predicate TupleUnder(schema: CompiledSchema, namespace: string, e: CompiledExpression, tupleset: string, computed: string) {
    UsesTuple(e, tupleset, computed) || exists via :: Uses(e, via) && TupleBelow(schema, namespace, via, tupleset, computed)
  }

  lemma TupleUnderRewrite(schema: CompiledSchema, namespace: string, relation: string, tupleset: string, computed: string)
    ensures TupleBelow(schema, namespace, relation, tupleset, computed)
            <==> var rewrite := RewriteOf(schema, namespace, relation);
                 rewrite.Some? && TupleUnder(schema, namespace, rewrite.value, tupleset, computed)
  {
    var rewrite := RewriteOf(schema, namespace, relation);
    if TupleBelow(schema, namespace, relation, tupleset, computed) {
      var below :| Includes(schema, namespace, relation, below) && TupleIn(schema, namespace, below, tupleset, computed);
      var path :| PathBetween(schema, namespace, path, relation, below);
      if |path| > 1 {
        assert Edge(schema, namespace, path[0], path[1]);
        assert PathBetween(schema, namespace, path[1..], path[1], below);
        assert TupleBelow(schema, namespace, path[1], tupleset, computed);
      }
    }
    if rewrite.Some? && TupleUnder(schema, namespace, rewrite.value, tupleset, computed) {
      if UsesTuple(rewrite.value, tupleset, computed) {
        IncludesItself(schema, namespace, relation);
      } else {
        var via :| Uses(rewrite.value, via) && TupleBelow(schema, namespace, via, tupleset, computed);
        var below :| Includes(schema, namespace, via, below) && TupleIn(schema, namespace, below, tupleset, computed);
        IncludesThroughEdge(schema, namespace, relation, via, below);
      }
    }
  }

  /** The search for tuple-to-userset rewrites cannot fail, and what it finds is there. */
  lemma {:induction false} TargetSearchIsSound(schema: CompiledSchema, ownerType: string, ownerRelation: string, e: CompiledExpression,
                                               intermediate: string, source: string, visiting: set<RelationId>)
    requires WellFormed(schema) && Linked(schema, ownerType, e)
    ensures TupleTargetsOf(schema, ownerType, ownerRelation, e, intermediate, source, visiting).Ok?
    ensures forall t :: t in TupleTargetsOf(schema, ownerType, ownerRelation, e, intermediate, source, visiting).value ==>
              && t.resourceType == ownerType && t.target == ownerRelation
              && TupleUnder(schema, ownerType, e, t.tupleset, t.computed) && Includes(schema, intermediate, t.computed, source)
    decreases |SchemaIds(schema) - visiting|, e
  {
    hide WellFormed, Includes, TupleBelow, NameCanInclude;
    match e
    case ComputedUserset(used, id, targetHasRewrite) =>
      if targetHasRewrite && id !in visiting {
        LocatedIsLinked(schema, ownerType, used, id);
        VisitingShrinks(schema, id, visiting);
        var inner := RewriteOf(schema, ownerType, used).value;
        TargetSearchIsSound(schema, ownerType, ownerRelation, inner, intermediate, source, visiting + {id});
        forall t | t in TupleTargetsOf(schema, ownerType, ownerRelation, inner, intermediate, source, visiting + {id}).value
          ensures TupleUnder(schema, ownerType, e, t.tupleset, t.computed)
        {
          TupleUnderRewrite(schema, ownerType, used, t.tupleset, t.computed);
          assert Uses(e, used);
        }
      }
    case TupleToUserset(_, _, computed) => NameSearchDecidesInclusion(schema, intermediate, computed, source);
    case Union(children) => TargetsAmongAreSound(schema, ownerType, ownerRelation, children, intermediate, source, visiting);
    case Intersection(children) => TargetsAmongAreSound(schema, ownerType, ownerRelation, children, intermediate, source, visiting);
    case Exclusion(base, _) => TargetSearchIsSound(schema, ownerType, ownerRelation, base, intermediate, source, visiting);
    case This =>
  }

  lemma {:induction false} TargetsAmongAreSound(schema: CompiledSchema, ownerType: string, ownerRelation: string, children: seq<CompiledExpression>,
                                                intermediate: string, source: string, visiting: set<RelationId>)
    requires WellFormed(schema)
    requires forall i :: 0 <= i < |children| ==> Linked(schema, ownerType, children[i])
    ensures TupleTargetsAmong(schema, ownerType, ownerRelation, children, intermediate, source, visiting).Ok?
    ensures forall t :: t in TupleTargetsAmong(schema, ownerType, ownerRelation, children, intermediate, source, visiting).value ==>
              && t.resourceType == ownerType && t.target == ownerRelation
              && (exists i :: 0 <= i < |children| && TupleUnder(schema, ownerType, children[i], t.tupleset, t.computed))
              && Includes(schema, intermediate, t.computed, source)
    decreases |SchemaIds(schema) - visiting|, children
  {
    hide WellFormed, Includes, TupleUnder;
    if children != [] {
      TargetSearchIsSound(schema, ownerType, ownerRelation, children[0], intermediate, source, visiting);
      TargetsAmongAreSound(schema, ownerType, ownerRelation, children[1..], intermediate, source, visiting);
      forall t | t in TupleTargetsAmong(schema, ownerType, ownerRelation, children[1..], intermediate, source, visiting).value
        ensures exists i :: 0 <= i < |children| && TupleUnder(schema, ownerType, children[i], t.tupleset, t.computed)
      {
        var i :| 0 <= i < |children[1..]| && TupleUnder(schema, ownerType, children[1..][i], t.tupleset, t.computed);
        assert TupleUnder(schema, ownerType, children[i + 1], t.tupleset, t.computed);
      }
    }
  }

  /** The route from an expression to a tuple-to-userset rewrite: none if it contains it, otherwise the
      relations passed on the way, without repetition and clear of what is being visited. */
  ghost predicate TupleRoute(schema: CompiledSchema, namespace: string, e: CompiledExpression, visiting: set<RelationId>,
                             path: seq<string>, tupleset: string, computed: string) {
    if path == [] then UsesTuple(e, tupleset, computed)
    else
      && Uses(e, path[0]) && Path(schema, namespace, path) && Simple(path) && Avoids(schema, visiting, path)
      && TupleIn(schema, namespace, path[|path| - 1], tupleset, computed)
  }

  lemma RouteContinues(schema: CompiledSchema, namespace: string, e: CompiledExpression, visiting: set<RelationId>,
                       path: seq<string>, tupleset: string, computed: string)
    requires WellFormed(schema) && e.ComputedUserset? && Linked(schema, namespace, e)
    requires TupleRoute(schema, namespace, e, visiting, path, tupleset, computed)
    ensures e.relationId in SchemaIds(schema) && e.relationId !in visiting && path != []
    ensures var inner := RewriteOf(schema, namespace, e.relation);
            && e.targetHasRewrite && inner.Some? && Linked(schema, namespace, inner.value)
            && schema.resolver.ById(e.relationId).value.compiledRewrite == inner
            && TupleRoute(schema, namespace, inner.value, visiting + {e.relationId}, path[1..], tupleset, computed)
  {
    hide WellFormed;
    LocatedIsLinked(schema, namespace, e.relation, e.relationId);
    if |path| > 1 {
      assert Edge(schema, namespace, path[0], path[1]);
    }
  }

  lemma {:induction false} TargetSearchIsComplete(schema: CompiledSchema, ownerType: string, ownerRelation: string, e: CompiledExpression,
                                                  intermediate: string, source: string, visiting: set<RelationId>, path: seq<string>, t: TupleTarget)
    requires WellFormed(schema) && Linked(schema, ownerType, e)
    requires t.resourceType == ownerType && t.target == ownerRelation && Includes(schema, intermediate, t.computed, source)
    requires TupleRoute(schema, ownerType, e, visiting, path, t.tupleset, t.computed)
    ensures TupleTargetsOf(schema, ownerType, ownerRelation, e, intermediate, source, visiting).Ok?
    ensures t in TupleTargetsOf(schema, ownerType, ownerRelation, e, intermediate, source, visiting).value
    decreases |SchemaIds(schema) - visiting|, e
  {
    hide WellFormed, Includes, NameCanInclude, Avoids, Simple, Path, TupleIn, SchemaIds;
    match e
    case ComputedUserset(used, id, targetHasRewrite) =>
      RouteContinues(schema, ownerType, e, visiting, path, t.tupleset, t.computed);
      VisitingShrinks(schema, id, visiting);
      TargetSearchIsComplete(schema, ownerType, ownerRelation, RewriteOf(schema, ownerType, used).value,
                             intermediate, source, visiting + {id}, path[1..], t);
    case TupleToUserset(_, _, computed) => NameSearchDecidesInclusion(schema, intermediate, computed, source);
    case Union(children) => TargetsAmongAreComplete(schema, ownerType, ownerRelation, children, intermediate, source, visiting, path, t);
    case Intersection(children) => TargetsAmongAreComplete(schema, ownerType, ownerRelation, children, intermediate, source, visiting, path, t);
    case Exclusion(base, _) => TargetSearchIsComplete(schema, ownerType, ownerRelation, base, intermediate, source, visiting, path, t);
  }

  lemma {:induction false} TargetsAmongAreComplete(schema: CompiledSchema, ownerType: string, ownerRelation: string, children: seq<CompiledExpression>,
                                                   intermediate: string, source: string, visiting: set<RelationId>, path: seq<string>, t: TupleTarget)
    requires WellFormed(schema)
    requires forall i :: 0 <= i < |children| ==> Linked(schema, ownerType, children[i])
    requires t.resourceType == ownerType && t.target == ownerRelation && Includes(schema, intermediate, t.computed, source)
    requires exists i :: 0 <= i < |children| && TupleRoute(schema, ownerType, children[i], visiting, path, t.tupleset, t.computed)
    ensures TupleTargetsAmong(schema, ownerType, ownerRelation, children, intermediate, source, visiting).Ok?
    ensures t in TupleTargetsAmong(schema, ownerType, ownerRelation, children, intermediate, source, visiting).value
    decreases |SchemaIds(schema) - visiting|, children
  {
    hide WellFormed, Includes, TupleRoute;
    var i :| 0 <= i < |children| && TupleRoute(schema, ownerType, children[i], visiting, path, t.tupleset, t.computed);
    TargetsAmongAreSound(schema, ownerType, ownerRelation, children, intermediate, source, visiting);
    if i == 0 {
      TargetSearchIsComplete(schema, ownerType, ownerRelation, children[0], intermediate, source, visiting, path, t);
    } else {
      assert children[i] == children[1..][i - 1];
      TargetsAmongAreComplete(schema, ownerType, ownerRelation, children[1..], intermediate, source, visiting, path, t);
    }
  }

  /** A row on `t.tupleset` of an object of type `t.resourceType` that names an object of type
      `intermediate` may turn `source` there into `t.target` here. */
  ghost predicate TupleEdge(schema: CompiledSchema, intermediate: string, source: string, t: TupleTarget) {
    && schema.resolver.Relation(t.resourceType, t.target).Ok?
    && TupleBelow(schema, t.resourceType, t.target, t.tupleset, t.computed)
    && Includes(schema, intermediate, t.computed, source)
  }

  lemma TargetSearchIsExact(schema: CompiledSchema, ownerType: string, ownerRelation: string, intermediate: string, source: string)
    requires WellFormed(schema) && RewriteOf(schema, ownerType, ownerRelation).Some?
    ensures var found := TupleTargetsOf(schema, ownerType, ownerRelation, RewriteOf(schema, ownerType, ownerRelation).value, intermediate, source, {});
            found.Ok? && forall t :: t in found.value <==> t.resourceType == ownerType && t.target == ownerRelation && TupleEdge(schema, intermediate, source, t)
  {
    hide WellFormed, Includes;
    var e := RewriteOf(schema, ownerType, ownerRelation).value;
    FoundIsLinked(schema, ownerType, ownerRelation);
    TargetSearchIsSound(schema, ownerType, ownerRelation, e, intermediate, source, {});
    forall t: TupleTarget | t.resourceType == ownerType && t.target == ownerRelation && Includes(schema, intermediate, t.computed, source)
      ensures TupleBelow(schema, ownerType, ownerRelation, t.tupleset, t.computed) <==> TupleUnder(schema, ownerType, e, t.tupleset, t.computed)
      ensures TupleUnder(schema, ownerType, e, t.tupleset, t.computed) ==>
                t in TupleTargetsOf(schema, ownerType, ownerRelation, e, intermediate, source, {}).value
    {
      TupleUnderRewrite(schema, ownerType, ownerRelation, t.tupleset, t.computed);
      if TupleUnder(schema, ownerType, e, t.tupleset, t.computed) {
        var path := RouteToTuple(schema, ownerType, e, t.tupleset, t.computed);
        TargetSearchIsComplete(schema, ownerType, ownerRelation, e, intermediate, source, {}, path, t);
      }
    }
  }

  lemma RouteToTuple(schema: CompiledSchema, namespace: string, e: CompiledExpression, tupleset: string, computed: string) returns (path: seq<string>)
    requires TupleUnder(schema, namespace, e, tupleset, computed)
    ensures TupleRoute(schema, namespace, e, {}, path, tupleset, computed)
  {
    if UsesTuple(e, tupleset, computed) {
      path := [];
    } else {
      var via :| Uses(e, via) && TupleBelow(schema, namespace, via, tupleset, computed);
      var below :| Includes(schema, namespace, via, below) && TupleIn(schema, namespace, below, tupleset, computed);
      path := SimpleSteps(schema, namespace, via, below);
    }
  }

  lemma {:induction false} TargetsInNamespaceAreExact(schema: CompiledSchema, ownerType: string, relations: seq<RelationDefinition>, intermediate: string, source: string)
    requires WellFormed(schema)
    requires forall j :: 0 <= j < |relations| ==> schema.resolver.Relation(ownerType, relations[j].name) == Ok(relations[j])
    ensures var found := TupleTargetsInNamespace(schema, ownerType, relations, intermediate, source);
            found.Ok? && forall t :: t in found.value <==> t.resourceType == ownerType && Named(relations, t.target) && TupleEdge(schema, intermediate, source, t)
  {
    hide WellFormed, Includes, TupleTargetsOf, TupleBelow;
    if relations != [] {
      var first := relations[0].name;
      TargetsInNamespaceAreExact(schema, ownerType, relations[1..], intermediate, source);
      if relations[0].compiledRewrite.Some? {
        TargetSearchIsExact(schema, ownerType, first, intermediate, source);
      } else {
        NoTupleBelowRows(schema, ownerType, first);
      }
      forall r ensures Named(relations, r) <==> r == first || Named(relations[1..], r) {
        if Named(relations, r) && r != first {
          var j :| 0 <= j < |relations| && relations[j].name == r;
          assert relations[1..][j - 1].name == r;
        }
        if Named(relations[1..], r) {
          var j :| 0 <= j < |relations[1..]| && relations[1..][j].name == r;
          assert relations[j + 1].name == r;
        }
      }
    }
  }

  lemma NoTupleBelowRows(schema: CompiledSchema, namespace: string, relation: string)
    requires RewriteOf(schema, namespace, relation).None?
    ensures forall tupleset, computed :: !TupleBelow(schema, namespace, relation, tupleset, computed)
  {
    forall tupleset, computed ensures !TupleBelow(schema, namespace, relation, tupleset, computed) {
      TupleUnderRewrite(schema, namespace, relation, tupleset, computed);
    }
  }

  ghost predicate DefinedFrom(schema: CompiledSchema, from: nat, namespace: string) {
    exists i :: from <= i < |schema.definitions| && schema.definitions[i].name == namespace
  }

  lemma {:induction false} TargetsAreExactFrom(schema: CompiledSchema, definitions: seq<NamespaceDefinition>, from: nat, intermediate: string, source: string)
    requires WellFormed(schema) && from <= |schema.definitions| && definitions == schema.definitions[from..]
    ensures var found := TupleTargets(schema, definitions, intermediate, source);
            && found.Ok?
            && forall t :: t in found.value <==> DefinedFrom(schema, from, t.resourceType) && TupleEdge(schema, intermediate, source, t)
    decreases |definitions|
  {
    hide TupleEdge, TupleTargetsInNamespace;
    if definitions != [] {
      var owner := schema.definitions[from];
      TargetsAreExactFrom(schema, definitions[1..], from + 1, intermediate, source);
      forall j | 0 <= j < |owner.relations| ensures schema.resolver.Relation(owner.name, owner.relations[j].name) == Ok(owner.relations[j]) {
        assert IndexesRelations(schema.resolver.relationIndexes[owner.name], owner.relations);
      }
      TargetsInNamespaceAreExact(schema, owner.name, owner.relations, intermediate, source);
      NamedIsDefined(schema, owner.name);
      forall t | TupleEdge(schema, intermediate, source, t) && t.resourceType == owner.name ensures Named(owner.relations, t.target) {
        EdgeTargetIsDefined(schema, intermediate, source, t);
      }
    }
  }

  lemma EdgeTargetIsDefined(schema: CompiledSchema, intermediate: string, source: string, t: TupleTarget)
    requires TupleEdge(schema, intermediate, source, t)
    ensures schema.resolver.Relation(t.resourceType, t.target).Ok?
  {
  }

  /** The tuple edges out of a relation are exactly the rewrites of the schema that lead on from it; the
      search never fails. */
  lemma TupleTargetsAreExact(schema: CompiledSchema, intermediate: string, source: string)
    requires WellFormed(schema)
    ensures var found := TupleTargets(schema, schema.definitions, intermediate, source);
            found.Ok? && forall t :: t in found.value <==> TupleEdge(schema, intermediate, source, t)
  {
    TargetsAreExactFrom(schema, schema.definitions, 0, intermediate, source);
    forall t | TupleEdge(schema, intermediate, source, t)
      ensures DefinedFrom(schema, 0, t.resourceType)
    {
      LookupsAgree(schema.resolver, schema.definitions, t.resourceType, t.target);
    }
  }
}
