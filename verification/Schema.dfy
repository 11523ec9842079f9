/** Schema source, the resolved form the evaluator runs on, and the compiler between them. */
module Schema {
  import opened Vocabulary

  /** A userset rewrite as written: relations are referred to by name. */
  datatype UsersetExpression =
    | SourceThis
    | SourceComputed(relation: string)
    | SourceTupleToUserset(tuplesetRelation: string, computedRelation: string)
    | SourceUnion(operands: seq<UsersetExpression>)
    | SourceIntersection(operands: seq<UsersetExpression>)
    | SourceExclusion(included: UsersetExpression, excluded: UsersetExpression)

  /** Position of a relation inside one compiled schema. */
  datatype RelationId = RelationId(namespaceIndex: nat, relationIndex: nat)

  /** A rewrite whose same-namespace edges are resolved to positions. */
  datatype CompiledExpression =
    | This
    | ComputedUserset(relation: string, relationId: RelationId, targetHasRewrite: bool)
    | TupleToUserset(tuplesetRelation: string, tuplesetRelationId: RelationId, computedRelation: string)
    | Union(children: seq<CompiledExpression>)
    | Intersection(children: seq<CompiledExpression>)
    | Exclusion(base: CompiledExpression, exclude: CompiledExpression)

  datatype AllowedSubjectTypes = Unspecified | Explicit(objectTypes: seq<string>)

  datatype RelationDefinition = RelationDefinition(
    name: string,
    allowedSubjectTypes: AllowedSubjectTypes,
    rewrite: Option<UsersetExpression>,
    compiledRewrite: Option<CompiledExpression>)

  datatype NamespaceDefinition = NamespaceDefinition(name: string, relations: seq<RelationDefinition>)

  datatype SchemaError =
    | DuplicateNamespace(namespace: string)
    | DuplicateRelation(namespace: string, relation: string)
    | NamespaceNotFound(namespace: string)
    | RelationNotFound(namespace: string, relation: string)
    | MissingRelationReference(namespace: string, owner: string, missing: string)
    | MissingTupleToUsersetTarget(namespace: string, owner: string, missing: string)
    | EmptyExpression(namespace: string, owner: string)

  /** Name tables over a list of definitions. */
  datatype SchemaResolver = SchemaResolver(
    definitions: seq<NamespaceDefinition>,
    namespaceIndexes: map<string, nat>,
    relationIndexes: map<string, map<string, nat>>)
  {
    function Namespace(objectType: string): Result<NamespaceDefinition, SchemaError> {
      if objectType !in namespaceIndexes then Err(NamespaceNotFound(objectType))
      else if namespaceIndexes[objectType] < |definitions| then Ok(definitions[namespaceIndexes[objectType]])
      else Err(NamespaceNotFound(objectType))
    }

    function Relation(objectType: string, relation: string): Result<RelationDefinition, SchemaError> {
      var namespace :- Namespace(objectType);
      if objectType !in relationIndexes then Err(NamespaceNotFound(objectType))
      else if relation !in relationIndexes[objectType] then Err(RelationNotFound(objectType, relation))
      else if relationIndexes[objectType][relation] < |namespace.relations| then
        Ok(namespace.relations[relationIndexes[objectType][relation]])
      else Err(RelationNotFound(objectType, relation))
    }

    function IdOf(objectType: string, relation: string): Result<RelationId, SchemaError> {
      if objectType !in namespaceIndexes then Err(NamespaceNotFound(objectType))
      else if objectType !in relationIndexes then Err(NamespaceNotFound(objectType))
      else if relation !in relationIndexes[objectType] then Err(RelationNotFound(objectType, relation))
      else Ok(RelationId(namespaceIndexes[objectType], relationIndexes[objectType][relation]))
    }

    function ById(id: RelationId): Option<RelationDefinition> {
      if id.namespaceIndex < |definitions| && id.relationIndex < |definitions[id.namespaceIndex].relations|
      then Some(definitions[id.namespaceIndex].relations[id.relationIndex])
      else None
    }

    predicate ExistsAnywhere(relation: string) {
      exists objectType | objectType in relationIndexes :: relation in relationIndexes[objectType]
    }
  }

  datatype CompiledSchema = CompiledSchema(definitions: seq<NamespaceDefinition>, resolver: SchemaResolver)

  // ---------------------------------------------------------------- name tables

  ghost predicate DistinctRelations(relations: seq<RelationDefinition>) {
    forall i, j :: 0 <= i < j < |relations| ==> relations[i].name != relations[j].name
  }

  ghost predicate DistinctNames(definitions: seq<NamespaceDefinition>) {
    && (forall i, j :: 0 <= i < j < |definitions| ==> definitions[i].name != definitions[j].name)
    && (forall i :: 0 <= i < |definitions| ==> DistinctRelations(definitions[i].relations))
  }

  /** `table` sends each relation name to its one position. */
  ghost predicate IndexesRelations(table: map<string, nat>, relations: seq<RelationDefinition>) {
    && (forall j :: 0 <= j < |relations| ==> relations[j].name in table && table[relations[j].name] == j)
    && (forall name :: name in table ==> table[name] < |relations| && relations[table[name]].name == name)
  }

  ghost predicate IndexesNamespaces(resolver: SchemaResolver, definitions: seq<NamespaceDefinition>) {
    && (forall i :: 0 <= i < |definitions| ==>
          definitions[i].name in resolver.namespaceIndexes && resolver.namespaceIndexes[definitions[i].name] == i)
    && (forall name :: name in resolver.namespaceIndexes ==>
          resolver.namespaceIndexes[name] < |definitions| && definitions[resolver.namespaceIndexes[name]].name == name)
    && resolver.relationIndexes.Keys == resolver.namespaceIndexes.Keys
    && (forall i :: 0 <= i < |definitions| && definitions[i].name in resolver.relationIndexes ==>
          IndexesRelations(resolver.relationIndexes[definitions[i].name], definitions[i].relations))
  }

  ghost predicate Resolves(resolver: SchemaResolver, definitions: seq<NamespaceDefinition>) {
    resolver.definitions == definitions && IndexesNamespaces(resolver, definitions)
  }

  method IndexRelations(namespace: NamespaceDefinition) returns (r: Result<map<string, nat>, SchemaError>)
    ensures r.Ok? <==> DistinctRelations(namespace.relations)
    ensures r.Ok? ==> IndexesRelations(r.value, namespace.relations)
  {
    var table: map<string, nat> := map[];
    for i := 0 to |namespace.relations|
      invariant IndexesRelations(table, namespace.relations[..i])
      invariant DistinctRelations(namespace.relations[..i])
    {
      var name := namespace.relations[i].name;
      if name in table {
        assert namespace.relations[table[name]].name == namespace.relations[i].name;
        return Err(DuplicateRelation(namespace.name, name));
      }
      table := table[name := i];
      assert namespace.relations[..i + 1][..i] == namespace.relations[..i];
    }
    assert namespace.relations[..|namespace.relations|] == namespace.relations;
    r := Ok(table);
  }

  lemma NamespaceAdded(before: SchemaResolver, after: SchemaResolver, definitions: seq<NamespaceDefinition>,
                       namespace: NamespaceDefinition, relations: map<string, nat>)
    requires IndexesNamespaces(before, definitions)
    requires namespace.name !in before.namespaceIndexes
    requires IndexesRelations(relations, namespace.relations)
    requires after.namespaceIndexes == before.namespaceIndexes[namespace.name := |definitions|]
    requires after.relationIndexes == before.relationIndexes[namespace.name := relations]
    ensures IndexesNamespaces(after, definitions + [namespace])
  {
    var extended := definitions + [namespace];
    forall i | 0 <= i < |extended|
      ensures extended[i].name in after.namespaceIndexes && after.namespaceIndexes[extended[i].name] == i
      ensures IndexesRelations(after.relationIndexes[extended[i].name], extended[i].relations)
    {
      if i < |definitions| {
        assert extended[i] == definitions[i];
      }
    }
  }

  /** Builds the name tables; it fails exactly on a duplicated namespace or relation name. */
  method NewResolver(definitions: seq<NamespaceDefinition>) returns (r: Result<SchemaResolver, SchemaError>)
    ensures r.Ok? <==> DistinctNames(definitions)
    ensures r.Ok? ==> Resolves(r.value, definitions)
  {
    hide DistinctRelations, IndexesRelations;
    var resolver := SchemaResolver([], map[], map[]);
    for i := 0 to |definitions|
      invariant IndexesNamespaces(resolver, definitions[..i])
      invariant DistinctNames(definitions[..i])
    {
      var namespace := definitions[i];
      if namespace.name in resolver.namespaceIndexes {
        assert definitions[resolver.namespaceIndexes[namespace.name]].name == definitions[i].name;
        return Err(DuplicateNamespace(namespace.name));
      }
      var relations := IndexRelations(namespace);
      if relations.Err? {
        return Err(relations.error);
      }
      var extended := SchemaResolver([],
        resolver.namespaceIndexes[namespace.name := i],
        resolver.relationIndexes[namespace.name := relations.value]);
      assert definitions[..i + 1] == definitions[..i] + [namespace];
      NamespaceAdded(resolver, extended, definitions[..i], namespace, relations.value);
      resolver := extended;
    }
    assert definitions[..|definitions|] == definitions;
    r := Ok(resolver.(definitions := definitions));
  }

  /** `relation` is defined in namespace `objectType`, at position `id`. */
  ghost predicate DefinedAt(definitions: seq<NamespaceDefinition>, objectType: string, relation: string, id: RelationId) {
    && id.namespaceIndex < |definitions|
    && definitions[id.namespaceIndex].name == objectType
    && id.relationIndex < |definitions[id.namespaceIndex].relations|
    && definitions[id.namespaceIndex].relations[id.relationIndex].name == relation
  }

  ghost predicate Defines(definitions: seq<NamespaceDefinition>, objectType: string, relation: string) {
    exists id :: DefinedAt(definitions, objectType, relation, id)
  }

  function RelationAt(definitions: seq<NamespaceDefinition>, id: RelationId): RelationDefinition
    requires id.namespaceIndex < |definitions|
    requires id.relationIndex < |definitions[id.namespaceIndex].relations|
  {
    definitions[id.namespaceIndex].relations[id.relationIndex]
  }

  /** The three lookups agree with one another and with the definitions. */
  lemma LookupsAgree(resolver: SchemaResolver, definitions: seq<NamespaceDefinition>, objectType: string, relation: string)
    requires Resolves(resolver, definitions)
    ensures resolver.Relation(objectType, relation).Ok? <==> Defines(definitions, objectType, relation)
    ensures resolver.IdOf(objectType, relation).Ok? <==> resolver.Relation(objectType, relation).Ok?
    ensures resolver.IdOf(objectType, relation).Ok? ==>
              var id := resolver.IdOf(objectType, relation).value;
              && DefinedAt(definitions, objectType, relation, id)
              && resolver.ById(id) == Some(resolver.Relation(objectType, relation).value)
    ensures forall id :: DefinedAt(definitions, objectType, relation, id) ==> resolver.IdOf(objectType, relation) == Ok(id)
  {
    if resolver.Relation(objectType, relation).Ok? {
      assert DefinedAt(definitions, objectType, relation, resolver.IdOf(objectType, relation).value);
    }
  }

  // ---------------------------------------------------------------- reference validation

  function ValidateTarget(resolver: SchemaResolver, namespace: string, owner: string,
                          tupleset: RelationDefinition, computed: string): Result<(), SchemaError> {
    match tupleset.allowedSubjectTypes
    case Explicit(objectTypes) =>
      if exists objectType | objectType in objectTypes :: resolver.Relation(objectType, computed).Err?
      then Err(MissingTupleToUsersetTarget(namespace, owner, computed))
      else Ok(())
    case Unspecified =>
      if resolver.ExistsAnywhere(computed) then Ok(())
      else Err(MissingTupleToUsersetTarget(namespace, owner, computed))
  }

  function EnsureRelation(resolver: SchemaResolver, namespace: string, owner: string, relation: string)
    : Result<RelationDefinition, SchemaError>
  {
    match resolver.Relation(namespace, relation)
    case Err(RelationNotFound(_, _)) => Err(MissingRelationReference(namespace, owner, relation))
    case other => other
  }

  function ValidateExpression(resolver: SchemaResolver, namespace: string, owner: string, e: UsersetExpression)
    : Result<(), SchemaError>
    decreases e, 1
  {
    match e
    case SourceThis => Ok(())
    case SourceComputed(relation) =>
      var _ :- EnsureRelation(resolver, namespace, owner, relation);
      Ok(())
    case SourceTupleToUserset(tupleset, computed) =>
      var definition :- EnsureRelation(resolver, namespace, owner, tupleset);
      ValidateTarget(resolver, namespace, owner, definition, computed)
    case SourceUnion(operands) =>
      if operands == [] then Err(EmptyExpression(namespace, owner))
      else ValidateOperands(resolver, namespace, owner, operands)
    case SourceIntersection(operands) =>
      if operands == [] then Err(EmptyExpression(namespace, owner))
      else ValidateOperands(resolver, namespace, owner, operands)
    case SourceExclusion(included, excluded) =>
      var _ :- ValidateExpression(resolver, namespace, owner, included);
      ValidateExpression(resolver, namespace, owner, excluded)
  }

  function ValidateOperands(resolver: SchemaResolver, namespace: string, owner: string, operands: seq<UsersetExpression>)
    : Result<(), SchemaError>
    decreases operands, 0
  {
    if operands == [] then Ok(())
    else
      var _ :- ValidateExpression(resolver, namespace, owner, operands[0]);
      ValidateOperands(resolver, namespace, owner, operands[1..])
  }

  ghost predicate TargetExists(definitions: seq<NamespaceDefinition>, allowed: AllowedSubjectTypes, computed: string) {
    match allowed
    case Explicit(types) => forall t :: t in types ==> Defines(definitions, t, computed)
    case Unspecified => exists t :: Defines(definitions, t, computed)
  }

  /** What a legal rewrite in `namespace` may refer to. */
  ghost predicate ReferencesExist(definitions: seq<NamespaceDefinition>, namespace: string, e: UsersetExpression) {
    match e
    case SourceThis => true
    case SourceComputed(relation) => Defines(definitions, namespace, relation)
    case SourceTupleToUserset(tupleset, computed) =>
      exists id :: && DefinedAt(definitions, namespace, tupleset, id)
                   && TargetExists(definitions, RelationAt(definitions, id).allowedSubjectTypes, computed)
    case SourceUnion(operands) =>
      operands != [] && forall c :: c in operands ==> ReferencesExist(definitions, namespace, c)
    case SourceIntersection(operands) =>
      operands != [] && forall c :: c in operands ==> ReferencesExist(definitions, namespace, c)
    case SourceExclusion(included, excluded) =>
      ReferencesExist(definitions, namespace, included) && ReferencesExist(definitions, namespace, excluded)
  }

  lemma TargetValidationIsExact(resolver: SchemaResolver, definitions: seq<NamespaceDefinition>,
                                namespace: string, owner: string, tupleset: RelationDefinition, computed: string)
    requires Resolves(resolver, definitions)
    ensures ValidateTarget(resolver, namespace, owner, tupleset, computed).Ok?
            <==> TargetExists(definitions, tupleset.allowedSubjectTypes, computed)
  {
    forall t ensures resolver.Relation(t, computed).Ok? <==> Defines(definitions, t, computed) {
      LookupsAgree(resolver, definitions, t, computed);
    }
    if tupleset.allowedSubjectTypes.Unspecified? {
      if t :| Defines(definitions, t, computed) {
        assert computed in resolver.relationIndexes[t];
      }
      if resolver.ExistsAnywhere(computed) {
        var t :| t in resolver.relationIndexes && computed in resolver.relationIndexes[t];
        assert resolver.Relation(t, computed).Ok?;
      }
    }
  }

  lemma {:induction false} ValidationIsExact(resolver: SchemaResolver, definitions: seq<NamespaceDefinition>,
                                             namespace: string, owner: string, e: UsersetExpression)
    requires Resolves(resolver, definitions)
    ensures ValidateExpression(resolver, namespace, owner, e).Ok? <==> ReferencesExist(definitions, namespace, e)
    decreases e, 1
  {
    match e
    case SourceThis =>
    case SourceComputed(relation) => LookupsAgree(resolver, definitions, namespace, relation);
    case SourceTupleToUserset(tupleset, computed) =>
      LookupsAgree(resolver, definitions, namespace, tupleset);
      if resolver.Relation(namespace, tupleset).Ok? {
        TargetValidationIsExact(resolver, definitions, namespace, owner, resolver.Relation(namespace, tupleset).value, computed);
      }
    case SourceUnion(operands) => OperandValidationIsExact(resolver, definitions, namespace, owner, operands);
    case SourceIntersection(operands) => OperandValidationIsExact(resolver, definitions, namespace, owner, operands);
    case SourceExclusion(included, excluded) =>
      ValidationIsExact(resolver, definitions, namespace, owner, included);
      ValidationIsExact(resolver, definitions, namespace, owner, excluded);
  }

  lemma {:induction false} OperandValidationIsExact(resolver: SchemaResolver, definitions: seq<NamespaceDefinition>,
                                                    namespace: string, owner: string, operands: seq<UsersetExpression>)
    requires Resolves(resolver, definitions)
    ensures ValidateOperands(resolver, namespace, owner, operands).Ok?
            <==> forall c :: c in operands ==> ReferencesExist(definitions, namespace, c)
    decreases operands, 0
  {
    if operands != [] {
      ValidationIsExact(resolver, definitions, namespace, owner, operands[0]);
      OperandValidationIsExact(resolver, definitions, namespace, owner, operands[1..]);
      assert forall c :: c in operands <==> c == operands[0] || c in operands[1..];
    }
  }

  // ---------------------------------------------------------------- resolution

  function CompileExpression(resolver: SchemaResolver, namespace: string, e: UsersetExpression)
    : Result<CompiledExpression, SchemaError>
    decreases e, 1
  {
    match e
    case SourceThis => Ok(This)
    case SourceComputed(relation) =>
      var definition :- resolver.Relation(namespace, relation);
      var id :- resolver.IdOf(namespace, relation);
      Ok(ComputedUserset(relation, id, definition.rewrite.Some?))
    case SourceTupleToUserset(tupleset, computed) =>
      var id :- resolver.IdOf(namespace, tupleset);
      Ok(TupleToUserset(tupleset, id, computed))
    case SourceUnion(operands) =>
      var children :- CompileOperands(resolver, namespace, operands);
      Ok(Union(children))
    case SourceIntersection(operands) =>
      var children :- CompileOperands(resolver, namespace, operands);
      Ok(Intersection(children))
    case SourceExclusion(included, excluded) =>
      var base :- CompileExpression(resolver, namespace, included);
      var exclude :- CompileExpression(resolver, namespace, excluded);
      Ok(Exclusion(base, exclude))
  }

  function CompileOperands(resolver: SchemaResolver, namespace: string, operands: seq<UsersetExpression>)
    : Result<seq<CompiledExpression>, SchemaError>
    decreases operands, 0
  {
    if operands == [] then Ok([])
    else
      var first :- CompileExpression(resolver, namespace, operands[0]);
      var rest :- CompileOperands(resolver, namespace, operands[1..]);
      Ok([first] + rest)
  }

  /** `compiled` is `e` with every same-namespace edge pointing at the definition it names. */
  ghost predicate ResolvedAs(definitions: seq<NamespaceDefinition>, namespace: string,
                             e: UsersetExpression, compiled: CompiledExpression) {
    match e
    case SourceThis => compiled == This
    case SourceComputed(relation) =>
      && compiled.ComputedUserset?
      && compiled.relation == relation
      && DefinedAt(definitions, namespace, relation, compiled.relationId)
      && compiled.targetHasRewrite == RelationAt(definitions, compiled.relationId).rewrite.Some?
    case SourceTupleToUserset(tupleset, computed) =>
      && compiled.TupleToUserset?
      && compiled.tuplesetRelation == tupleset
      && compiled.computedRelation == computed
      && DefinedAt(definitions, namespace, tupleset, compiled.tuplesetRelationId)
    case SourceUnion(operands) =>
      && compiled.Union?
      && |compiled.children| == |operands| > 0
      && forall i :: 0 <= i < |operands| ==> ResolvedAs(definitions, namespace, operands[i], compiled.children[i])
    case SourceIntersection(operands) =>
      && compiled.Intersection?
      && |compiled.children| == |operands| > 0
      && forall i :: 0 <= i < |operands| ==> ResolvedAs(definitions, namespace, operands[i], compiled.children[i])
    case SourceExclusion(included, excluded) =>
      && compiled.Exclusion?
      && ResolvedAs(definitions, namespace, included, compiled.base)
      && ResolvedAs(definitions, namespace, excluded, compiled.exclude)
  }

  /** A validated expression always compiles, and what it compiles to is resolved. */
  lemma {:induction false} CompilationResolves(resolver: SchemaResolver, definitions: seq<NamespaceDefinition>,
                                               namespace: string, e: UsersetExpression)
    requires Resolves(resolver, definitions)
    requires ReferencesExist(definitions, namespace, e)
    ensures CompileExpression(resolver, namespace, e).Ok?
    ensures ResolvedAs(definitions, namespace, e, CompileExpression(resolver, namespace, e).value)
    decreases e, 1
  {
    match e
    case SourceThis =>
    case SourceComputed(relation) => LookupsAgree(resolver, definitions, namespace, relation);
    case SourceTupleToUserset(tupleset, _) => LookupsAgree(resolver, definitions, namespace, tupleset);
    case SourceUnion(operands) => OperandCompilationResolves(resolver, definitions, namespace, operands);
    case SourceIntersection(operands) => OperandCompilationResolves(resolver, definitions, namespace, operands);
    case SourceExclusion(included, excluded) =>
      CompilationResolves(resolver, definitions, namespace, included);
      CompilationResolves(resolver, definitions, namespace, excluded);
  }

  lemma {:induction false} OperandCompilationResolves(resolver: SchemaResolver, definitions: seq<NamespaceDefinition>,
                                                      namespace: string, operands: seq<UsersetExpression>)
    requires Resolves(resolver, definitions)
    requires forall c :: c in operands ==> ReferencesExist(definitions, namespace, c)
    ensures CompileOperands(resolver, namespace, operands).Ok?
    ensures var children := CompileOperands(resolver, namespace, operands).value;
            && |children| == |operands|
            && forall i :: 0 <= i < |operands| ==> ResolvedAs(definitions, namespace, operands[i], children[i])
    decreases operands, 0
  {
    if operands != [] {
      CompilationResolves(resolver, definitions, namespace, operands[0]);
      OperandCompilationResolves(resolver, definitions, namespace, operands[1..]);
    }
  }

  /** The two lists differ at most in what their rewrites compiled to. */
  ghost predicate SameSource(left: seq<NamespaceDefinition>, right: seq<NamespaceDefinition>) {
    && |left| == |right|
    && forall i :: 0 <= i < |left| ==> SameNamespaceSource(left[i], right[i])
  }

  ghost predicate SameNamespaceSource(left: NamespaceDefinition, right: NamespaceDefinition) {
    && left.name == right.name
    && |left.relations| == |right.relations|
    && forall j :: 0 <= j < |left.relations| ==>
         left.relations[j] == right.relations[j].(compiledRewrite := left.relations[j].compiledRewrite)
  }

  lemma {:induction false} ResolutionCarriesOver(left: seq<NamespaceDefinition>, right: seq<NamespaceDefinition>,
                                                 namespace: string, e: UsersetExpression, compiled: CompiledExpression)
    requires SameSource(left, right)
    requires ResolvedAs(left, namespace, e, compiled)
    ensures ResolvedAs(right, namespace, e, compiled)
  {
    match e
    case SourceThis =>
    case SourceComputed(_) => assert SameNamespaceSource(left[compiled.relationId.namespaceIndex], right[compiled.relationId.namespaceIndex]);
    case SourceTupleToUserset(_, _) =>
      assert SameNamespaceSource(left[compiled.tuplesetRelationId.namespaceIndex], right[compiled.tuplesetRelationId.namespaceIndex]);
    case SourceUnion(operands) =>
      forall i | 0 <= i < |operands| { ResolutionCarriesOver(left, right, namespace, operands[i], compiled.children[i]); }
    case SourceIntersection(operands) =>
      forall i | 0 <= i < |operands| { ResolutionCarriesOver(left, right, namespace, operands[i], compiled.children[i]); }
    case SourceExclusion(included, excluded) =>
      ResolutionCarriesOver(left, right, namespace, included, compiled.base);
      ResolutionCarriesOver(left, right, namespace, excluded, compiled.exclude);
  }

  ghost predicate RelationCompiled(definitions: seq<NamespaceDefinition>, namespace: string, relation: RelationDefinition) {
    && (relation.compiledRewrite.Some? <==> relation.rewrite.Some?)
    && (relation.rewrite.Some? ==> ResolvedAs(definitions, namespace, relation.rewrite.value, relation.compiledRewrite.value))
  }

  ghost predicate NamespaceCompiled(definitions: seq<NamespaceDefinition>, namespace: NamespaceDefinition) {
    forall j :: 0 <= j < |namespace.relations| ==> RelationCompiled(definitions, namespace.name, namespace.relations[j])
  }

  /** What the evaluator relies on: the tables resolve the very definitions they travel with, and
      every rewrite is the resolution of its source. */
  ghost predicate WellFormed(schema: CompiledSchema) {
    && Resolves(schema.resolver, schema.definitions)
    && forall i :: 0 <= i < |schema.definitions| ==> NamespaceCompiled(schema.definitions, schema.definitions[i])
  }

  ghost predicate RelationLegal(definitions: seq<NamespaceDefinition>, namespace: string, relation: RelationDefinition) {
    relation.rewrite.Some? ==> ReferencesExist(definitions, namespace, relation.rewrite.value)
  }

  ghost predicate NamespaceLegal(definitions: seq<NamespaceDefinition>, namespace: NamespaceDefinition) {
    forall j :: 0 <= j < |namespace.relations| ==> RelationLegal(definitions, namespace.name, namespace.relations[j])
  }

  ghost predicate Legal(definitions: seq<NamespaceDefinition>) {
    && DistinctNames(definitions)
    && forall i :: 0 <= i < |definitions| ==> NamespaceLegal(definitions, definitions[i])
  }

  method ValidateNamespace(resolver: SchemaResolver, namespace: NamespaceDefinition) returns (r: Result<(), SchemaError>)
    requires Resolves(resolver, resolver.definitions)
    ensures r.Ok? <==> NamespaceLegal(resolver.definitions, namespace)
  {
    for j := 0 to |namespace.relations|
      invariant forall k :: 0 <= k < j ==> RelationLegal(resolver.definitions, namespace.name, namespace.relations[k])
    {
      var relation := namespace.relations[j];
      if relation.rewrite.Some? {
        ValidationIsExact(resolver, resolver.definitions, namespace.name, relation.name, relation.rewrite.value);
        var outcome := ValidateExpression(resolver, namespace.name, relation.name, relation.rewrite.value);
        if outcome.Err? {
          assert !RelationLegal(resolver.definitions, namespace.name, namespace.relations[j]);
          return Err(outcome.error);
        }
      }
    }
    r := Ok(());
  }

  method ValidateReferences(resolver: SchemaResolver) returns (r: Result<(), SchemaError>)
    requires Resolves(resolver, resolver.definitions)
    ensures r.Ok? <==> forall i :: 0 <= i < |resolver.definitions| ==> NamespaceLegal(resolver.definitions, resolver.definitions[i])
  {
    for i := 0 to |resolver.definitions|
      invariant forall k :: 0 <= k < i ==> NamespaceLegal(resolver.definitions, resolver.definitions[k])
    {
      var outcome := ValidateNamespace(resolver, resolver.definitions[i]);
      if outcome.Err? {
        return outcome;
      }
    }
    r := Ok(());
  }

  /** Resolution cannot fail once the references are validated. */
  method CompileNamespace(resolver: SchemaResolver, namespace: NamespaceDefinition) returns (r: NamespaceDefinition)
    requires Resolves(resolver, resolver.definitions)
    requires NamespaceLegal(resolver.definitions, namespace)
    ensures SameNamespaceSource(r, namespace) && NamespaceCompiled(resolver.definitions, r)
  {
    var relations: seq<RelationDefinition> := [];
    for j := 0 to |namespace.relations|
      invariant |relations| == j
      invariant forall k :: 0 <= k < j ==>
        && relations[k] == namespace.relations[k].(compiledRewrite := relations[k].compiledRewrite)
        && RelationCompiled(resolver.definitions, namespace.name, relations[k])
    {
      var relation := namespace.relations[j];
      assert RelationLegal(resolver.definitions, namespace.name, relation);
      var compiled: Option<CompiledExpression> := None;
      if relation.rewrite.Some? {
        CompilationResolves(resolver, resolver.definitions, namespace.name, relation.rewrite.value);
        compiled := Some(CompileExpression(resolver, namespace.name, relation.rewrite.value).value);
      }
      relations := relations + [relation.(compiledRewrite := compiled)];
    }
    r := NamespaceDefinition(namespace.name, relations);
  }

  method CompileDefinitions(resolver: SchemaResolver) returns (namespaces: seq<NamespaceDefinition>)
    requires Resolves(resolver, resolver.definitions)
    requires forall i :: 0 <= i < |resolver.definitions| ==> NamespaceLegal(resolver.definitions, resolver.definitions[i])
    ensures SameSource(namespaces, resolver.definitions)
    ensures forall i :: 0 <= i < |namespaces| ==> NamespaceCompiled(resolver.definitions, namespaces[i])
  {
    namespaces := [];
    for i := 0 to |resolver.definitions|
      invariant |namespaces| == i
      invariant forall k :: 0 <= k < i ==>
        SameNamespaceSource(namespaces[k], resolver.definitions[k]) && NamespaceCompiled(resolver.definitions, namespaces[k])
    {
      var compiled := CompileNamespace(resolver, resolver.definitions[i]);
      namespaces := namespaces + [compiled];
    }
  }

  lemma CompiledCarriesOver(left: seq<NamespaceDefinition>, right: seq<NamespaceDefinition>, namespace: NamespaceDefinition)
    requires SameSource(left, right)
    requires NamespaceCompiled(left, namespace)
    ensures NamespaceCompiled(right, namespace)
  {
    forall j | 0 <= j < |namespace.relations|
      ensures RelationCompiled(right, namespace.name, namespace.relations[j])
    {
      var relation := namespace.relations[j];
      assert RelationCompiled(left, namespace.name, relation);
      if relation.rewrite.Some? {
        ResolutionCarriesOver(left, right, namespace.name, relation.rewrite.value, relation.compiledRewrite.value);
      }
    }
  }

  lemma SameSourceKeepsDistinct(left: seq<NamespaceDefinition>, right: seq<NamespaceDefinition>)
    requires SameSource(left, right)
    requires DistinctNames(right)
    ensures DistinctNames(left)
  {
    forall i, j | 0 <= i < j < |left| ensures left[i].name != left[j].name {
      assert SameNamespaceSource(left[i], right[i]) && SameNamespaceSource(left[j], right[j]);
    }
    forall i | 0 <= i < |left| ensures DistinctRelations(left[i].relations) {
      assert SameNamespaceSource(left[i], right[i]);
      assert DistinctRelations(right[i].relations);
    }
  }

  /** Compiles definitions into the schema a snapshot is published with. It succeeds exactly on
      legal definitions; the ids, computed against the first resolver, are right in the second. */
  method FromDefinitions(definitions: seq<NamespaceDefinition>) returns (r: Result<CompiledSchema, SchemaError>)
    ensures r.Ok? <==> Legal(definitions)
    ensures r.Ok? ==> WellFormed(r.value) && SameSource(r.value.definitions, definitions)
  {
    var first := NewResolver(definitions);
    if first.Err? {
      return Err(first.error);
    }
    var references := ValidateReferences(first.value);
    if references.Err? {
      return Err(references.error);
    }
    var compiled := CompileDefinitions(first.value);
    SameSourceKeepsDistinct(compiled, definitions);
    var second := NewResolver(compiled);
    assert SameSource(definitions, compiled);
    forall i | 0 <= i < |compiled| ensures NamespaceCompiled(compiled, compiled[i]) {
      CompiledCarriesOver(definitions, compiled, compiled[i]);
    }
    r := Ok(CompiledSchema(compiled, second.value));
  }

  /** A relationship refers only to relations the schema defines. */
  predicate ValidateRelationship(schema: CompiledSchema, relationship: Relationship) {
    && schema.resolver.Relation(relationship.resource.namespace, relationship.relation).Ok?
    && (relationship.subject.UsersetSubject? ==>
          schema.resolver.Relation(relationship.subject.entity.namespace, relationship.subject.relation).Ok?)
  }

  // ---------------------------------------------------------------- links

  /** Every id inside `e` points at the relation it is stored beside, in namespace `namespace`, and no
      set operation is empty. */
  ghost predicate Linked(schema: CompiledSchema, namespace: string, e: CompiledExpression) {
    match e
    case This => true
    case ComputedUserset(relation, id, targetHasRewrite) =>
      && schema.resolver.Relation(namespace, relation).Ok?
      && schema.resolver.ById(id) == Some(schema.resolver.Relation(namespace, relation).value)
      && schema.resolver.ById(id).value.name == relation
      && targetHasRewrite == schema.resolver.ById(id).value.compiledRewrite.Some?
    case TupleToUserset(tupleset, id, _) =>
      && schema.resolver.Relation(namespace, tupleset).Ok?
      && schema.resolver.ById(id) == Some(schema.resolver.Relation(namespace, tupleset).value)
      && schema.resolver.ById(id).value.name == tupleset
    case Union(children) => children != [] && forall i :: 0 <= i < |children| ==> Linked(schema, namespace, children[i])
    case Intersection(children) => children != [] && forall i :: 0 <= i < |children| ==> Linked(schema, namespace, children[i])
    case Exclusion(base, exclude) => Linked(schema, namespace, base) && Linked(schema, namespace, exclude)
  }

  lemma {:induction false} ResolvedIsLinked(schema: CompiledSchema, namespace: string, e: UsersetExpression, compiled: CompiledExpression)
    requires WellFormed(schema)
    requires ResolvedAs(schema.definitions, namespace, e, compiled)
    ensures Linked(schema, namespace, compiled)
  {
    match e
    case SourceThis =>
    case SourceComputed(relation) =>
      LookupsAgree(schema.resolver, schema.definitions, namespace, relation);
      assert NamespaceCompiled(schema.definitions, schema.definitions[compiled.relationId.namespaceIndex]);
      assert RelationCompiled(schema.definitions, namespace, RelationAt(schema.definitions, compiled.relationId));
    case SourceTupleToUserset(tupleset, _) => LookupsAgree(schema.resolver, schema.definitions, namespace, tupleset);
    case SourceUnion(operands) =>
      forall i | 0 <= i < |operands| { ResolvedIsLinked(schema, namespace, operands[i], compiled.children[i]); }
    case SourceIntersection(operands) =>
      forall i | 0 <= i < |operands| { ResolvedIsLinked(schema, namespace, operands[i], compiled.children[i]); }
    case SourceExclusion(included, excluded) =>
      ResolvedIsLinked(schema, namespace, included, compiled.base);
      ResolvedIsLinked(schema, namespace, excluded, compiled.exclude);
  }

  ghost predicate DefinitionLinked(schema: CompiledSchema, namespace: string, definition: RelationDefinition) {
    definition.compiledRewrite.Some? ==> Linked(schema, namespace, definition.compiledRewrite.value)
  }

  lemma FoundIsLinked(schema: CompiledSchema, namespace: string, relation: string)
    requires WellFormed(schema)
    requires schema.resolver.Relation(namespace, relation).Ok?
    ensures DefinitionLinked(schema, namespace, schema.resolver.Relation(namespace, relation).value)
    ensures schema.resolver.Relation(namespace, relation).value.name == relation
  {
    LookupsAgree(schema.resolver, schema.definitions, namespace, relation);
    var id := schema.resolver.IdOf(namespace, relation).value;
    var definition := RelationAt(schema.definitions, id);
    assert NamespaceCompiled(schema.definitions, schema.definitions[id.namespaceIndex]);
    assert RelationCompiled(schema.definitions, namespace, definition);
    if definition.compiledRewrite.Some? {
      ResolvedIsLinked(schema, namespace, definition.rewrite.value, definition.compiledRewrite.value);
    }
  }
}
