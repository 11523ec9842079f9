/** What readers of a published snapshot may rely on: publication leaves nothing to be assumed about the
    stored rows. */
module PublishedReads {
  import opened Vocabulary
  import opened Schema
  import opened Semantics
  import opened CheckSpec
  import opened CheckCorrect
  import opened SubjectExploration
  import opened StoreView
  import opened NamespaceConfigs
  import opened PublishedHistory
  import opened Publication

  predicate SourcePositive(e: UsersetExpression) {
    match e
    case SourceUnion(operands) => forall i :: 0 <= i < |operands| ==> SourcePositive(operands[i])
    case SourceIntersection(operands) => forall i :: 0 <= i < |operands| ==> SourcePositive(operands[i])
    case SourceExclusion(_, _) => false
    case _ => true
  }

  /** No configured rewrite uses exclusion. */
  predicate ConfigsArePositive(configs: Configs) {
    forall name, key :: name in configs && key in configs[name].relations && configs[name].relations[key].rewrite.Some? ==>
      SourcePositive(configs[name].relations[key].rewrite.value)
  }

  lemma {:induction false} CompilingKeepsPositive(definitions: seq<NamespaceDefinition>, namespace: string, e: UsersetExpression, compiled: CompiledExpression)
    requires ResolvedAs(definitions, namespace, e, compiled) && SourcePositive(e)
    ensures Positive(compiled)
  {
    match e
    case SourceUnion(operands) =>
      forall i | 0 <= i < |operands| { CompilingKeepsPositive(definitions, namespace, operands[i], compiled.children[i]); }
    case SourceIntersection(operands) =>
      forall i | 0 <= i < |operands| { CompilingKeepsPositive(definitions, namespace, operands[i], compiled.children[i]); }
    case _ =>
  }

  /** The rewrite behind a compiled relation is a configured one. */
  lemma CompiledIsConfigured(configs: Configs, schema: CompiledSchema, id: RelationId)
    requires CompiledFrom(configs, schema)
    requires id.namespaceIndex < |schema.definitions| && id.relationIndex < |schema.definitions[id.namespaceIndex].relations|
    ensures exists name, key :: && name in configs && key in configs[name].relations
                                && configs[name].relations[key].rewrite == RelationAt(schema.definitions, id).rewrite
  {
    hide WellFormed, DistinctRelations, DistinctlyNamed;
    var definitions: seq<NamespaceDefinition> :| Lists(definitions, configs) && SameSource(schema.definitions, definitions);
    assert SameNamespaceSource(schema.definitions[id.namespaceIndex], definitions[id.namespaceIndex]);
    var namespace := definitions[id.namespaceIndex];
    assert Configured(configs[namespace.name].relations, namespace.relations[id.relationIndex]);
  }

  lemma PositiveConfigsAreExclusionFree(configs: Configs, schema: CompiledSchema)
    requires CompiledFrom(configs, schema) && ConfigsArePositive(configs)
    ensures ExclusionFree(schema)
  {
    hide ConfigsArePositive;
    forall objectType, relation |
      var found := schema.resolver.Relation(objectType, relation); found.Ok? && found.value.compiledRewrite.Some?
      ensures Positive(schema.resolver.Relation(objectType, relation).value.compiledRewrite.value)
    {
      CompiledRewriteIsPositive(configs, schema, objectType, relation);
    }
  }

  lemma CompiledRewriteIsPositive(configs: Configs, schema: CompiledSchema, objectType: string, relation: string)
    requires CompiledFrom(configs, schema) && ConfigsArePositive(configs)
    requires var found := schema.resolver.Relation(objectType, relation); found.Ok? && found.value.compiledRewrite.Some?
    ensures Positive(schema.resolver.Relation(objectType, relation).value.compiledRewrite.value)
  {
    LookupsAgree(schema.resolver, schema.definitions, objectType, relation);
    var id := schema.resolver.IdOf(objectType, relation).value;
    CompiledIsConfigured(configs, schema, id);
    var name, key :| && name in configs && key in configs[name].relations
                     && configs[name].relations[key].rewrite == RelationAt(schema.definitions, id).rewrite;
    assert NamespaceCompiled(schema.definitions, schema.definitions[id.namespaceIndex]);
    var definition := RelationAt(schema.definitions, id);
    assert RelationCompiled(schema.definitions, schema.definitions[id.namespaceIndex].name, definition);
    CompilingKeepsPositive(schema.definitions, objectType, definition.rewrite.value, definition.compiledRewrite.value);
  }

  /** Where no `user` namespace is configured, no resolving row names a userset of the user type. */
  lemma ResolvingRowsNameNoUsers(configs: Configs, rows: Rows)
    requires USER_TYPE !in configs && rows.deleted == {} && AllResolveIn(configs, LiveSet(rows))
    ensures NoUserUsersets(rows)
  {
    hide HasRelation;
    forall row | row in rows.inserted || row in rows.checkpoint
      ensures !(row.subject.UsersetSubject? && row.subject.entity.namespace == USER_TYPE)
    {
      assert row in LiveSet(rows);
      assert ResolvesIn(configs, row);
    }
  }

  /** What the evaluator sees of a published snapshot; `native` is what its checkpoint has interned. */
  ghost function EvaluationOf(snapshot: PublishedSnapshot, frozen: set<object>, native: Option<set<string>>): Snapshot
    requires Anchored(snapshot.relationships, frozen)
    reads frozen
  {
    Snapshot(snapshot.schema, RowsOf(snapshot.relationships, frozen), native)
  }

  /** Configurations and a view for which nothing about the rows has to be assumed. */
  ghost predicate Plain(snapshot: PublishedSnapshot, frozen: set<object>)
    requires Anchored(snapshot.relationships, frozen)
    reads frozen
  {
    ConfigsArePositive(snapshot.configs) && USER_TYPE !in snapshot.configs && RowsOf(snapshot.relationships, frozen).deleted == {}
  }

  /** Every snapshot a writer has published is well formed, and a plain one assures exact lookups and exact
      checks for every limit and every subject. */
  lemma PublishedSnapshotsAreAssured(writer: WriterState, i: nat, native: Option<set<string>>, limits: EvaluationLimits, subjectType: string)
    requires writer.Valid() && i < |writer.log|
    ensures Anchored(writer.log[i].relationships, writer.frozen)
    ensures var snapshot := EvaluationOf(writer.log[i], writer.frozen, native);
            && WellFormed(snapshot.schema)
            && (Plain(writer.log[i], writer.frozen) ==>
                  && ExclusionFree(snapshot.schema) && NoUserUsersets(snapshot.rows) && Assured(snapshot, limits, subjectType)
                  && forall user :: DirectExact(snapshot.rows, user))
  {
    hide CompiledFrom, RelationshipStoreView.Valid, ConfigsArePositive, ExclusionFree, WellFormed, AllResolveIn, DirectExact, Assured;
    var published := writer.log[i];
    assert Kept(published, writer.frozen);
    var snapshot := EvaluationOf(published, writer.frozen, native);
    CompiledIsWellFormed(published.configs, published.schema);
    if Plain(published, writer.frozen) {
      PositiveConfigsAreExclusionFree(published.configs, published.schema);
      ResolvingRowsNameNoUsers(published.configs, snapshot.rows);
      ExclusionFreeIsAssured(snapshot, limits, subjectType);
      forall user ensures DirectExact(snapshot.rows, user) {
        DirectIsExact(snapshot.rows, user);
      }
    }
  }

  lemma CompiledIsWellFormed(configs: Configs, schema: CompiledSchema)
    requires CompiledFrom(configs, schema)
    ensures WellFormed(schema)
  {
  }

  lemma DirectIsExact(rows: Rows, user: User)
    requires NoUserUsersets(rows)
    ensures DirectExact(rows, user)
  {
    if user.UserId? {
      DirectExactForUsers(rows, user);
    } else {
      DirectExactForUsersets(rows, user);
    }
  }

  /** So a memo-free check against a plain published snapshot that answers, answers membership. */
  lemma PublishedChecksAreMembership(writer: WriterState, i: nat, native: Option<set<string>>, limits: EvaluationLimits,
                                     entity: Object, relation: string, user: User)
    requires writer.Valid() && i < |writer.log|
    requires Anchored(writer.log[i].relationships, writer.frozen) && Plain(writer.log[i], writer.frozen)
    ensures var snapshot := EvaluationOf(writer.log[i], writer.frozen, native);
            Agrees(RootSpec(Request(snapshot, limits, user), entity, relation), Member(snapshot, user)(Node(entity, relation)))
  {
    hide WriterState.Valid, RelationshipStoreView.Valid, WellFormed, ExclusionFree, NoUserUsersets, Assured, DirectExact, Member, CheckKeySpec, Plain;
    PublishedSnapshotsAreAssured(writer, i, native, limits, USER_TYPE);
    CheckIsMembership(Request(EvaluationOf(writer.log[i], writer.frozen, native), limits, user), entity, relation);
  }
}
