/** The writer's schema source: namespace configurations keyed by name, and their compilation. The
    configurations sit in hash maps, so the compiler sees them in no particular order. */
module NamespaceConfigs {
  import opened Vocabulary
  import opened Domain
  import opened Schema

  datatype RelationConfig = RelationConfig(name: string, rewrite: Option<UsersetExpression>)

  datatype NamespaceConfig = NamespaceConfig(name: string, relations: map<string, RelationConfig>)

  type Configs = map<string, NamespaceConfig>

  datatype CompileError = InvalidName(name: string) | InvalidSchema(error: SchemaError)

  /** Every configuration is filed under its own name. */
  ghost predicate Keyed(configs: Configs) {
    forall key :: key in configs ==> configs[key].name == key
  }

  // ---------------------------------------------------------------- what a legal configuration is

  ghost predicate DefinesRelation(configs: Configs, objectType: string, relation: string) {
    objectType in configs && HasRelation(configs[objectType].relations, relation)
  }

  ghost predicate HasRelation(table: map<string, RelationConfig>, relation: string) {
    exists key :: key in table && table[key].name == relation
  }

  /** The names a rewrite mentions are identifiers. */
  predicate NamesAreValid(e: UsersetExpression) {
    match e
    case SourceThis => true
    case SourceComputed(relation) => ValidTypeName(relation)
    case SourceTupleToUserset(tupleset, computed) => ValidTypeName(tupleset) && ValidTypeName(computed)
    case SourceUnion(operands) => forall i :: 0 <= i < |operands| ==> NamesAreValid(operands[i])
    case SourceIntersection(operands) => forall i :: 0 <= i < |operands| ==> NamesAreValid(operands[i])
    case SourceExclusion(included, excluded) => NamesAreValid(included) && NamesAreValid(excluded)
  }

  predicate RelationNamesAreValid(relation: RelationConfig) {
    ValidTypeName(relation.name) && (relation.rewrite.Some? ==> NamesAreValid(relation.rewrite.value))
  }

  predicate ConfigNamesAreValid(config: NamespaceConfig) {
    ValidTypeName(config.name)
    && forall key :: key in config.relations ==> RelationNamesAreValid(config.relations[key])
  }

  /** Every relation a rewrite of `namespace` leads to is configured. */
  ghost predicate RefersInside(configs: Configs, namespace: string, e: UsersetExpression) {
    match e
    case SourceThis => true
    case SourceComputed(relation) => DefinesRelation(configs, namespace, relation)
    case SourceTupleToUserset(tupleset, computed) =>
      DefinesRelation(configs, namespace, tupleset) && exists objectType :: DefinesRelation(configs, objectType, computed)
    case SourceUnion(operands) => operands != [] && forall c :: c in operands ==> RefersInside(configs, namespace, c)
    case SourceIntersection(operands) => operands != [] && forall c :: c in operands ==> RefersInside(configs, namespace, c)
    case SourceExclusion(included, excluded) =>
      RefersInside(configs, namespace, included) && RefersInside(configs, namespace, excluded)
  }

  ghost predicate DistinctlyNamed(relations: map<string, RelationConfig>) {
    forall left, right :: left in relations && right in relations && left != right ==> relations[left].name != relations[right].name
  }

  ghost predicate NamespacePublishable(configs: Configs, config: NamespaceConfig) {
    && ConfigNamesAreValid(config)
    && DistinctlyNamed(config.relations)
    && forall key :: key in config.relations && config.relations[key].rewrite.Some? ==>
         RefersInside(configs, config.name, config.relations[key].rewrite.value)
  }

  /** The configurations compile. */
  ghost predicate Publishable(configs: Configs) {
    forall name :: name in configs ==> NamespacePublishable(configs, configs[name])
  }

  // ---------------------------------------------------------------- listing configurations

  function DefinitionOf(relation: RelationConfig): RelationDefinition {
    RelationDefinition(relation.name, Unspecified, relation.rewrite, None)
  }

  ghost predicate Configured(table: map<string, RelationConfig>, definition: RelationDefinition) {
    exists key :: key in table && definition == DefinitionOf(table[key])
  }

  ghost predicate HasNamespace(definitions: seq<NamespaceDefinition>, name: string) {
    exists i :: 0 <= i < |definitions| && definitions[i].name == name
  }

  /** `relations` lists the configured relations, in some order. */
  ghost predicate ListsRelations(relations: seq<RelationDefinition>, table: map<string, RelationConfig>) {
    && (forall j :: 0 <= j < |relations| ==> Configured(table, relations[j]))
    && (forall key :: key in table ==> DefinitionOf(table[key]) in relations)
    && (DistinctRelations(relations) <==> DistinctlyNamed(table))
  }

  /** `definitions` lists the configured namespaces, in some order. */
  ghost predicate Lists(definitions: seq<NamespaceDefinition>, configs: Configs) {
    && (forall i, j :: 0 <= i < j < |definitions| ==> definitions[i].name != definitions[j].name)
    && (forall i :: 0 <= i < |definitions| ==>
          definitions[i].name in configs && ListsRelations(definitions[i].relations, configs[definitions[i].name].relations))
    && (forall name :: name in configs ==> HasNamespace(definitions, name))
  }

  /** `schema` is what the configurations compile to, whatever order they were met in. */
  ghost predicate CompiledFrom(configs: Configs, schema: CompiledSchema) {
    WellFormed(schema) && exists definitions :: Lists(definitions, configs) && SameSource(schema.definitions, definitions)
  }

  lemma ListedRelationsAre(definitions: seq<NamespaceDefinition>, configs: Configs, objectType: string, relation: string)
    requires Lists(definitions, configs)
    ensures Defines(definitions, objectType, relation) <==> DefinesRelation(configs, objectType, relation)
  {
    hide DistinctRelations, DistinctlyNamed;
    if id :| DefinedAt(definitions, objectType, relation, id) {
      assert Configured(configs[objectType].relations, RelationAt(definitions, id));
    }
    if DefinesRelation(configs, objectType, relation) {
      var table := configs[objectType].relations;
      var key :| key in table && table[key].name == relation;
      assert HasNamespace(definitions, objectType);
      var i :| 0 <= i < |definitions| && definitions[i].name == objectType;
      var j :| 0 <= j < |definitions[i].relations| && definitions[i].relations[j] == DefinitionOf(table[key]);
      assert DefinedAt(definitions, objectType, relation, RelationId(i, j));
    }
  }

  lemma ListedRelationsAreUnspecified(definitions: seq<NamespaceDefinition>, configs: Configs, id: RelationId)
    requires Lists(definitions, configs)
    requires id.namespaceIndex < |definitions| && id.relationIndex < |definitions[id.namespaceIndex].relations|
    ensures RelationAt(definitions, id).allowedSubjectTypes.Unspecified?
  {
  }

  lemma {:induction false} ReferencesAreInside(definitions: seq<NamespaceDefinition>, configs: Configs, namespace: string, e: UsersetExpression)
    requires Lists(definitions, configs)
    ensures ReferencesExist(definitions, namespace, e) <==> RefersInside(configs, namespace, e)
  {
    hide Lists, DefinesRelation, Defines, DefinedAt;
    match e
    case SourceThis =>
    case SourceComputed(relation) => ListedRelationsAre(definitions, configs, namespace, relation);
    case SourceTupleToUserset(tupleset, computed) => TupleReferencesAreInside(definitions, configs, namespace, tupleset, computed);
    case SourceUnion(operands) =>
      forall c | c in operands { ReferencesAreInside(definitions, configs, namespace, c); }
    case SourceIntersection(operands) =>
      forall c | c in operands { ReferencesAreInside(definitions, configs, namespace, c); }
    case SourceExclusion(included, excluded) =>
      ReferencesAreInside(definitions, configs, namespace, included);
      ReferencesAreInside(definitions, configs, namespace, excluded);
  }

  lemma TupleReferencesAreInside(definitions: seq<NamespaceDefinition>, configs: Configs, namespace: string, tupleset: string, computed: string)
    requires Lists(definitions, configs)
    ensures ReferencesExist(definitions, namespace, SourceTupleToUserset(tupleset, computed))
            <==> RefersInside(configs, namespace, SourceTupleToUserset(tupleset, computed))
  {
    hide Lists, DefinesRelation;
    ListedRelationsAre(definitions, configs, namespace, tupleset);
    forall objectType ensures Defines(definitions, objectType, computed) <==> DefinesRelation(configs, objectType, computed) {
      ListedRelationsAre(definitions, configs, objectType, computed);
    }
    forall id | DefinedAt(definitions, namespace, tupleset, id) ensures RelationAt(definitions, id).allowedSubjectTypes.Unspecified? {
      ListedRelationsAreUnspecified(definitions, configs, id);
    }
  }

  lemma ListedNamespaceIsLegal(definitions: seq<NamespaceDefinition>, configs: Configs, i: nat)
    requires Lists(definitions, configs) && Keyed(configs) && i < |definitions|
    requires ConfigNamesAreValid(configs[definitions[i].name])
    ensures DistinctRelations(definitions[i].relations) && NamespaceLegal(definitions, definitions[i])
            <==> NamespacePublishable(configs, configs[definitions[i].name])
  {
    hide ConfigNamesAreValid, ReferencesExist, RefersInside, DistinctRelations, DistinctlyNamed;
    var namespace := definitions[i];
    var config := configs[namespace.name];
    forall e ensures ReferencesExist(definitions, namespace.name, e) <==> RefersInside(configs, namespace.name, e) {
      ReferencesAreInside(definitions, configs, namespace.name, e);
    }
    if NamespaceLegal(definitions, namespace) {
      forall key | key in config.relations && config.relations[key].rewrite.Some?
        ensures RefersInside(configs, config.name, config.relations[key].rewrite.value)
      {
        var j :| 0 <= j < |namespace.relations| && namespace.relations[j] == DefinitionOf(config.relations[key]);
        assert RelationLegal(definitions, namespace.name, namespace.relations[j]);
      }
    }
  }

  /** Legality of the listing is legality of the configurations: order does not matter. */
  lemma ListingIsLegal(definitions: seq<NamespaceDefinition>, configs: Configs)
    requires Lists(definitions, configs) && Keyed(configs)
    requires forall name :: name in configs ==> ConfigNamesAreValid(configs[name])
    ensures Legal(definitions) <==> Publishable(configs)
  {
    hide ConfigNamesAreValid, NamespaceLegal, NamespacePublishable, DistinctRelations, ListsRelations;
    forall i | 0 <= i < |definitions|
      ensures DistinctRelations(definitions[i].relations) && NamespaceLegal(definitions, definitions[i])
              <==> NamespacePublishable(configs, configs[definitions[i].name])
    {
      ListedNamespaceIsLegal(definitions, configs, i);
    }
  }

  // ---------------------------------------------------------------- the compiler's front end

  method ListRelations(table: map<string, RelationConfig>) returns (relations: seq<RelationDefinition>)
    ensures ListsRelations(relations, table)
  {
    relations := [];
    ghost var keys: seq<string> := [];
    var left := table.Keys;
    while left != {}
      invariant left <= table.Keys && |keys| == |relations|
      invariant forall j :: 0 <= j < |keys| ==> keys[j] in table.Keys - left && relations[j] == DefinitionOf(table[keys[j]])
      invariant forall i, j :: 0 <= i < j < |keys| ==> keys[i] != keys[j]
      invariant forall key :: key in table.Keys - left ==> key in keys
      decreases |left|
    {
      var key :| key in left;
      left := left - {key};
      relations := relations + [DefinitionOf(table[key])];
      keys := keys + [key];
    }
    KeysListRelations(relations, table, keys);
  }

  lemma KeysListRelations(relations: seq<RelationDefinition>, table: map<string, RelationConfig>, keys: seq<string>)
    requires |keys| == |relations|
    requires forall j :: 0 <= j < |keys| ==> keys[j] in table && relations[j] == DefinitionOf(table[keys[j]])
    requires forall i, j :: 0 <= i < j < |keys| ==> keys[i] != keys[j]
    requires forall key :: key in table ==> key in keys
    ensures ListsRelations(relations, table)
  {
    forall key | key in table ensures DefinitionOf(table[key]) in relations {
      var j :| 0 <= j < |keys| && keys[j] == key;
      assert relations[j] == DefinitionOf(table[key]);
    }
    if DistinctRelations(relations) {
      forall left, right | left in table && right in table && left != right ensures table[left].name != table[right].name {
        var i :| 0 <= i < |keys| && keys[i] == left;
        var j :| 0 <= j < |keys| && keys[j] == right;
        assert relations[i].name != relations[j].name;
      }
    }
  }

  method ListConfigs(configs: Configs) returns (definitions: seq<NamespaceDefinition>)
    requires Keyed(configs)
    ensures Lists(definitions, configs)
  {
    hide ListsRelations;
    definitions := [];
    var left := configs.Keys;
    while left != {}
      invariant left <= configs.Keys
      invariant forall i, j :: 0 <= i < j < |definitions| ==> definitions[i].name != definitions[j].name
      invariant forall i :: 0 <= i < |definitions| ==>
        definitions[i].name in configs.Keys - left && ListsRelations(definitions[i].relations, configs[definitions[i].name].relations)
      invariant forall name :: name in configs.Keys - left ==> HasNamespace(definitions, name)
      decreases |left|
    {
      var name :| name in left;
      left := left - {name};
      var relations := ListRelations(configs[name].relations);
      ghost var before := definitions;
      definitions := definitions + [NamespaceDefinition(configs[name].name, relations)];
      assert definitions[|before|].name == name;
      forall other | other in configs.Keys - left ensures HasNamespace(definitions, other) {
        NamespaceListed(before, definitions[|before|], other);
      }
    }
  }

  lemma NamespaceListed(definitions: seq<NamespaceDefinition>, namespace: NamespaceDefinition, name: string)
    requires HasNamespace(definitions, name) || namespace.name == name
    ensures HasNamespace(definitions + [namespace], name)
  {
    if i :| 0 <= i < |definitions| && definitions[i].name == name {
      assert (definitions + [namespace])[i].name == name;
    } else {
      assert (definitions + [namespace])[|definitions|].name == name;
    }
  }

  /** Compiles configurations. Whether it succeeds does not depend on the order they are listed in. */
  method CompileConfigs(configs: Configs) returns (r: Result<CompiledSchema, CompileError>)
    requires Keyed(configs)
    ensures r.Ok? <==> Publishable(configs)
    ensures r.Ok? ==> CompiledFrom(configs, r.value)
  {
    hide ListsRelations, Legal, WellFormed, ConfigNamesAreValid, Lists;
    var definitions := ListConfigs(configs);
    if name :| name in configs && !ConfigNamesAreValid(configs[name]) {
      return Err(InvalidName(name));
    }
    ListingIsLegal(definitions, configs);
    var compiled := FromDefinitions(definitions);
    if compiled.Err? {
      return Err(InvalidSchema(compiled.error));
    }
    r := Ok(compiled.value);
  }

  /** The compiled schema resolves exactly the configured relations. */
  lemma ResolvesConfigured(configs: Configs, schema: CompiledSchema, objectType: string, relation: string)
    requires CompiledFrom(configs, schema)
    ensures schema.resolver.Relation(objectType, relation).Ok? <==> DefinesRelation(configs, objectType, relation)
  {
    hide DefinesRelation, Lists, ListsRelations;
    LookupsAgree(schema.resolver, schema.definitions, objectType, relation);
    var definitions :| Lists(definitions, configs) && SameSource(schema.definitions, definitions);
    ListedRelationsAre(definitions, configs, objectType, relation);
    forall id ensures DefinedAt(schema.definitions, objectType, relation, id) <==> DefinedAt(definitions, objectType, relation, id) {
      assert id.namespaceIndex < |definitions| ==> SameNamespaceSource(schema.definitions[id.namespaceIndex], definitions[id.namespaceIndex]);
    }
  }

  lemma NamespacesConfigured(configs: Configs, schema: CompiledSchema, objectType: string)
    requires CompiledFrom(configs, schema)
    ensures schema.resolver.Namespace(objectType).Ok? <==> objectType in configs
  {
    hide ListsRelations, NamespaceCompiled;
    var definitions: seq<NamespaceDefinition> :| Lists(definitions, configs) && SameSource(schema.definitions, definitions);
    if objectType in configs {
      assert HasNamespace(definitions, objectType);
      var i :| 0 <= i < |definitions| && definitions[i].name == objectType;
      assert SameNamespaceSource(schema.definitions[i], definitions[i]);
    }
    if objectType in schema.resolver.namespaceIndexes {
      var i := schema.resolver.namespaceIndexes[objectType];
      assert SameNamespaceSource(schema.definitions[i], definitions[i]);
    }
  }

  /** The relationship refers only to configured relations. */
  ghost predicate ResolvesIn(configs: Configs, x: Relationship) {
    && DefinesRelation(configs, x.resource.namespace, x.relation)
    && (x.subject.UsersetSubject? ==> DefinesRelation(configs, x.subject.entity.namespace, x.subject.relation))
  }

  /** A namespace can go exactly if no relationship is stored on one of its objects or grants to one of its
      usersets. Its objects may still be direct subjects. */
  lemma NamespaceCanGo(configs: Configs, namespace: string, relationships: set<Relationship>)
    requires forall x :: x in relationships ==> ResolvesIn(configs, x)
    ensures (forall x :: x in relationships ==> ResolvesIn(configs - {namespace}, x))
            <==> (forall x :: x in relationships ==>
                    x.resource.namespace != namespace && (x.subject.UsersetSubject? ==> x.subject.entity.namespace != namespace))
  {
    hide HasRelation;
    forall x | x in relationships
      ensures ResolvesIn(configs - {namespace}, x)
              <==> x.resource.namespace != namespace && (x.subject.UsersetSubject? ==> x.subject.entity.namespace != namespace)
    {
      assert ResolvesIn(configs, x);
    }
  }

  /** A namespace may go while an object of it is still a direct subject. */
  lemma DirectSubjectsMayDangle() returns (configs: Configs, namespace: string, x: Relationship)
    ensures namespace in configs && ResolvesIn(configs, x) && ResolvesIn(configs - {namespace}, x)
    ensures x.subject.entity.namespace == namespace
  {
    var viewer, team := RelationConfig("viewer", None), "team";
    configs := map["doc" := NamespaceConfig("doc", map["viewer" := viewer]), team := NamespaceConfig(team, map[])];
    namespace, x := team, Relationship(Object("doc", "readme"), "viewer", DirectSubject(Object(team, "core")));
    assert "viewer" in configs["doc"].relations && configs["doc"].relations["viewer"].name == "viewer";
    assert (configs - {namespace})["doc"] == configs["doc"];
  }

  lemma ValidationIsResolution(configs: Configs, schema: CompiledSchema, x: Relationship)
    requires CompiledFrom(configs, schema)
    ensures ValidateRelationship(schema, x) <==> ResolvesIn(configs, x)
  {
    hide CompiledFrom, DefinesRelation;
    ResolvesConfigured(configs, schema, x.resource.namespace, x.relation);
    if x.subject.UsersetSubject? {
      ResolvesConfigured(configs, schema, x.subject.entity.namespace, x.subject.relation);
    }
  }

  // ---------------------------------------------------------------- parsed schema text

  /** A namespace as parsed: names may still repeat. */
  datatype ParsedNamespace = ParsedNamespace(name: string, relations: seq<RelationConfig>)

  function ParsedRelations(relations: seq<RelationConfig>): seq<RelationDefinition> {
    seq(|relations|, j requires 0 <= j < |relations| => DefinitionOf(relations[j]))
  }

  function ParsedDefinitions(source: seq<ParsedNamespace>): seq<NamespaceDefinition> {
    seq(|source|, i requires 0 <= i < |source| => NamespaceDefinition(source[i].name, ParsedRelations(source[i].relations)))
  }

  predicate ParsedNamesAreValid(namespace: ParsedNamespace) {
    ValidTypeName(namespace.name) && forall j :: 0 <= j < |namespace.relations| ==> RelationNamesAreValid(namespace.relations[j])
  }

  /** The text compiles by itself. */
  ghost predicate SourceLegal(source: seq<ParsedNamespace>) {
    && (forall i :: 0 <= i < |source| ==> ParsedNamesAreValid(source[i]))
    && Legal(ParsedDefinitions(source))
  }

  method CompileSource(source: seq<ParsedNamespace>) returns (r: Result<CompiledSchema, CompileError>)
    ensures r.Ok? <==> SourceLegal(source)
  {
    for i := 0 to |source|
      invariant forall k :: 0 <= k < i ==> ParsedNamesAreValid(source[k])
    {
      if !ParsedNamesAreValid(source[i]) {
        return Err(InvalidName(source[i].name));
      }
    }
    var compiled := FromDefinitions(ParsedDefinitions(source));
    r := if compiled.Err? then Err(InvalidSchema(compiled.error)) else Ok(compiled.value);
  }

  /** Relations filed by name; a later one replaces an earlier one. */
  function TableOf(relations: seq<RelationConfig>): map<string, RelationConfig> {
    if relations == [] then map[]
    else var last := relations[|relations| - 1]; TableOf(relations[..|relations| - 1])[last.name := last]
  }

  function ConfigsFrom(source: seq<ParsedNamespace>): seq<NamespaceConfig> {
    seq(|source|, i requires 0 <= i < |source| => NamespaceConfig(source[i].name, TableOf(source[i].relations)))
  }

  /** Configurations filed by name over those already there. */
  function Merged(configs: Configs, added: seq<NamespaceConfig>): Configs {
    if added == [] then configs
    else var last := added[|added| - 1]; Merged(configs, added[..|added| - 1])[last.name := last]
  }

  lemma {:induction false} MergingKeepsKeys(configs: Configs, added: seq<NamespaceConfig>)
    requires Keyed(configs)
    ensures Keyed(Merged(configs, added))
  {
    if added != [] {
      MergingKeepsKeys(configs, added[..|added| - 1]);
    }
  }

  lemma MergedNext(configs: Configs, added: seq<NamespaceConfig>, i: nat)
    requires i < |added|
    ensures Merged(configs, added[..i + 1]) == Merged(configs, added[..i])[added[i].name := added[i]]
  {
    assert added[..i + 1][..i] == added[..i];
  }

  method Merge(configs: Configs, added: seq<NamespaceConfig>) returns (next: Configs)
    ensures next == Merged(configs, added)
  {
    next := configs;
    for i := 0 to |added|
      invariant next == Merged(configs, added[..i])
    {
      MergedNext(configs, added, i);
      next := next[added[i].name := added[i]];
    }
    assert added[..|added|] == added;
  }

  ghost predicate Adds(added: seq<NamespaceConfig>, name: string) {
    exists i :: 0 <= i < |added| && added[i].name == name
  }

  ghost predicate IsLatest(added: seq<NamespaceConfig>, i: nat, name: string) {
    i < |added| && added[i].name == name && !Adds(added[i + 1..], name)
  }

  /** The last configuration given for a name is the one that stays. */
  lemma {:induction false} MergedKeepsLatest(configs: Configs, added: seq<NamespaceConfig>, name: string)
    ensures name in Merged(configs, added) <==> name in configs || Adds(added, name)
    ensures !Adds(added, name) && name in configs ==> Merged(configs, added)[name] == configs[name]
    ensures forall i: nat :: IsLatest(added, i, name) ==> name in Merged(configs, added) && Merged(configs, added)[name] == added[i]
  {
    if added != [] {
      var rest, last := added[..|added| - 1], added[|added| - 1];
      MergedKeepsLatest(configs, rest, name);
      assert Adds(added, name) <==> Adds(rest, name) || last.name == name by {
        assert forall i :: 0 <= i < |rest| ==> rest[i] == added[i];
        assert Adds(rest, name) || last.name == name ==> Adds(added, name);
      }
      forall i: nat | IsLatest(added, i, name)
        ensures name in Merged(configs, added) && Merged(configs, added)[name] == added[i]
      {
        if i < |rest| {
          LatestBefore(added, i, name);
        }
      }
    }
  }

  lemma LatestBefore(added: seq<NamespaceConfig>, i: nat, name: string)
    requires i < |added| - 1 && !Adds(added[i + 1..], name)
    ensures !Adds(added[..|added| - 1][i + 1..], name) && added[|added| - 1].name != name
  {
    var later, last := added[i + 1..], |added| - 1;
    assert later[|later| - 1] == added[last];
    assert added[..last][i + 1..] == later[..|later| - 1];
  }
}
