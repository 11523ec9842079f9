/** Declarative membership: what a schema and a set of relationships say, independently of how
    the evaluator finds it out. */
module Semantics {
  import opened Vocabulary
  import opened Schema

  /** An immutable snapshot. `nativeSymbols` holds the interned identifiers when the view is a bare
      checkpoint; a view with a delta has no segment-native keys. */
  datatype Snapshot = Snapshot(schema: CompiledSchema, rows: Rows, nativeSymbols: Option<set<string>>)

  /** A userset `entity#relation`. */
  datatype Node = Node(entity: Object, relation: string)

  /** Who is a member of which userset, for one fixed subject. */
  type Valuation = Node -> bool

  /** The live rows on one resource and relation. */
  function RowsOn(rows: Rows, entity: Object, relation: string): seq<Relationship> {
    ResourceRelation(rows, entity, relation, Unbounded)
  }

  lemma RowsOnAreLive(rows: Rows, entity: Object, relation: string)
    ensures forall row :: row in RowsOn(rows, entity, relation)
                          <==> Live(rows, row) && row.resource == entity && row.relation == relation
  {
    QueryIsLive(rows, OnResourceRelation(entity, relation));
  }

  ghost predicate DirectMember(rows: Rows, user: User, node: Node) {
    exists row :: && Live(rows, row) && row.resource == node.entity && row.relation == node.relation
                  && MatchesSubject(row.subject, FilterOf(user))
  }

  ghost predicate ThroughUserset(rows: Rows, val: Valuation, node: Node) {
    exists row :: && row in RowsOn(rows, node.entity, node.relation) && row.subject.UsersetSubject?
                  && val(Node(row.subject.entity, row.subject.relation))
  }

  ghost predicate ThisHolds(rows: Rows, user: User, val: Valuation, node: Node) {
    DirectMember(rows, user, node) || ThroughUserset(rows, val, node)
  }

  ghost predicate TupleHolds(rows: Rows, val: Valuation, entity: Object, tupleset: string, computed: string) {
    exists row :: row in RowsOn(rows, entity, tupleset) && row.subject.UsersetSubject? && val(Node(row.subject.entity, computed))
  }

  /** The meaning of a rewrite as written, at `node`, when `val` says who is in every userset. */
  ghost predicate SourceHolds(rows: Rows, user: User, val: Valuation, node: Node, e: UsersetExpression) {
    match e
    case SourceThis => ThisHolds(rows, user, val, node)
    case SourceComputed(relation) => val(Node(node.entity, relation))
    case SourceTupleToUserset(tupleset, computed) => TupleHolds(rows, val, node.entity, tupleset, computed)
    case SourceUnion(operands) => exists c :: c in operands && SourceHolds(rows, user, val, node, c)
    case SourceIntersection(operands) => forall c :: c in operands ==> SourceHolds(rows, user, val, node, c)
    case SourceExclusion(included, excluded) =>
      SourceHolds(rows, user, val, node, included) && !SourceHolds(rows, user, val, node, excluded)
  }

  /** The name behind a resolved position. */
  function NameOf(schema: CompiledSchema, id: RelationId): string {
    match schema.resolver.ById(id)
    case Some(definition) => definition.name
    case None => ""
  }

  /** The meaning of a compiled rewrite: same-namespace edges are followed by position. */
  ghost predicate ExprHolds(snapshot: Snapshot, user: User, val: Valuation, node: Node, e: CompiledExpression) {
    match e
    case This => ThisHolds(snapshot.rows, user, val, node)
    case ComputedUserset(_, id, _) => val(Node(node.entity, NameOf(snapshot.schema, id)))
    case TupleToUserset(_, id, computed) => TupleHolds(snapshot.rows, val, node.entity, NameOf(snapshot.schema, id), computed)
    case Union(children) => exists i :: 0 <= i < |children| && ExprHolds(snapshot, user, val, node, children[i])
    case Intersection(children) => forall i :: 0 <= i < |children| ==> ExprHolds(snapshot, user, val, node, children[i])
    case Exclusion(base, exclude) =>
      ExprHolds(snapshot, user, val, node, base) && !ExprHolds(snapshot, user, val, node, exclude)
  }

  ghost predicate DefinitionHolds(snapshot: Snapshot, user: User, val: Valuation, node: Node, definition: RelationDefinition) {
    match definition.compiledRewrite
    case Some(e) => ExprHolds(snapshot, user, val, node, e)
    case None => ThisHolds(snapshot.rows, user, val, node)
  }

  /** One unfolding of the schema's equation for `node`; an undefined relation has no members. */
  ghost predicate BodyHolds(snapshot: Snapshot, user: User, val: Valuation, node: Node) {
    match snapshot.schema.resolver.Relation(node.entity.namespace, node.relation)
    case Ok(definition) => DefinitionHolds(snapshot, user, val, node, definition)
    case Err(_) => false
  }

  /** `val` satisfies every equation of the schema. */
  ghost predicate Solves(snapshot: Snapshot, user: User, val: Valuation) {
    forall node :: val(node) <==> BodyHolds(snapshot, user, val, node)
  }

  // ---------------------------------------------------------------- source and compiled meaning

  lemma {:induction false} ResolvedMeansTheSame(snapshot: Snapshot, user: User, val: Valuation, node: Node,
                                                e: UsersetExpression, compiled: CompiledExpression)
    requires Resolves(snapshot.schema.resolver, snapshot.schema.definitions)
    requires ResolvedAs(snapshot.schema.definitions, node.entity.namespace, e, compiled)
    ensures ExprHolds(snapshot, user, val, node, compiled) <==> SourceHolds(snapshot.rows, user, val, node, e)
  {
    match e
    case SourceThis =>
    case SourceComputed(_) =>
    case SourceTupleToUserset(_, _) =>
    case SourceUnion(operands) =>
      forall i | 0 <= i < |operands| { ResolvedMeansTheSame(snapshot, user, val, node, operands[i], compiled.children[i]); }
      if c :| c in operands && SourceHolds(snapshot.rows, user, val, node, c) {
        var i :| 0 <= i < |operands| && operands[i] == c;
        assert ExprHolds(snapshot, user, val, node, compiled.children[i]);
      }
    case SourceIntersection(operands) =>
      forall i | 0 <= i < |operands| { ResolvedMeansTheSame(snapshot, user, val, node, operands[i], compiled.children[i]); }
      if ExprHolds(snapshot, user, val, node, compiled) {
        forall c | c in operands ensures SourceHolds(snapshot.rows, user, val, node, c) {
          var i :| 0 <= i < |operands| && operands[i] == c;
          assert ExprHolds(snapshot, user, val, node, compiled.children[i]);
        }
      }
    case SourceExclusion(included, excluded) =>
      ResolvedMeansTheSame(snapshot, user, val, node, included, compiled.base);
      ResolvedMeansTheSame(snapshot, user, val, node, excluded, compiled.exclude);
  }

  /** The equation of `node` as the source definitions state it. */
  ghost predicate SourceBodyHolds(definitions: seq<NamespaceDefinition>, rows: Rows, user: User, val: Valuation, node: Node) {
    exists id :: && DefinedAt(definitions, node.entity.namespace, node.relation, id)
                 && match RelationAt(definitions, id).rewrite
                    case Some(e) => SourceHolds(rows, user, val, node, e)
                    case None => ThisHolds(rows, user, val, node)
  }

  lemma SourceCarriesOver(left: seq<NamespaceDefinition>, right: seq<NamespaceDefinition>, rows: Rows, user: User, val: Valuation, node: Node)
    requires SameSource(left, right)
    requires SourceBodyHolds(left, rows, user, val, node)
    ensures SourceBodyHolds(right, rows, user, val, node)
  {
    var id :| && DefinedAt(left, node.entity.namespace, node.relation, id)
              && match RelationAt(left, id).rewrite
                 case Some(e) => SourceHolds(rows, user, val, node, e)
                 case None => ThisHolds(rows, user, val, node);
    assert SameNamespaceSource(left[id.namespaceIndex], right[id.namespaceIndex]);
    assert DefinedAt(right, node.entity.namespace, node.relation, id);
  }

  /** Compiling preserves meaning: under every valuation, the compiled equation of every userset
      is the equation its source definition states. */
  lemma CompiledEquationsAreSourceEquations(snapshot: Snapshot, source: seq<NamespaceDefinition>, user: User, val: Valuation, node: Node)
    requires WellFormed(snapshot.schema)
    requires SameSource(snapshot.schema.definitions, source)
    ensures BodyHolds(snapshot, user, val, node) <==> SourceBodyHolds(source, snapshot.rows, user, val, node)
  {
    var definitions := snapshot.schema.definitions;
    var namespace := node.entity.namespace;
    LookupsAgree(snapshot.schema.resolver, definitions, namespace, node.relation);
    if snapshot.schema.resolver.Relation(namespace, node.relation).Ok? {
      var id := snapshot.schema.resolver.IdOf(namespace, node.relation).value;
      var definition := RelationAt(definitions, id);
      assert NamespaceCompiled(definitions, definitions[id.namespaceIndex]);
      assert RelationCompiled(definitions, namespace, definition);
      if definition.rewrite.Some? {
        ResolvedMeansTheSame(snapshot, user, val, node, definition.rewrite.value, definition.compiledRewrite.value);
      }
    }
    assert BodyHolds(snapshot, user, val, node) <==> SourceBodyHolds(definitions, snapshot.rows, user, val, node);
    assert SameSource(source, definitions);
    if SourceBodyHolds(definitions, snapshot.rows, user, val, node) {
      SourceCarriesOver(definitions, source, snapshot.rows, user, val, node);
    }
    if SourceBodyHolds(source, snapshot.rows, user, val, node) {
      SourceCarriesOver(source, definitions, snapshot.rows, user, val, node);
    }
  }

  // ---------------------------------------------------------------- iteration

  /** What is derivable in `n` unfoldings when the nodes in `blocked` are taken to be empty. */
  ghost function Iterate(snapshot: Snapshot, user: User, blocked: set<Node>, n: nat): Valuation {
    if n == 0 then (node: Node) => false
    else (node: Node) => node !in blocked && BodyHolds(snapshot, user, Iterate(snapshot, user, blocked, n - 1), node)
  }

  /** The least solution with the nodes in `blocked` forced empty. */
  ghost function Least(snapshot: Snapshot, user: User, blocked: set<Node>): Valuation {
    (node: Node) => exists n: nat :: Iterate(snapshot, user, blocked, n)(node)
  }

  /** Membership proper: what the iterates from the empty valuation settle on. */
  ghost function Member(snapshot: Snapshot, user: User): Valuation {
    (node: Node) => exists from: nat :: Settled(snapshot, user, node, from)
  }

  ghost predicate Settled(snapshot: Snapshot, user: User, node: Node, from: nat) {
    forall n: nat :: from <= n ==> Iterate(snapshot, user, {}, n)(node)
  }

  predicate Positive(e: CompiledExpression) {
    match e
    case Union(children) => forall i :: 0 <= i < |children| ==> Positive(children[i])
    case Intersection(children) => forall i :: 0 <= i < |children| ==> Positive(children[i])
    case Exclusion(_, _) => false
    case _ => true
  }

  /** No rewrite of the schema uses exclusion. */
  ghost predicate ExclusionFree(schema: CompiledSchema) {
    forall objectType, relation ::
      var found := schema.resolver.Relation(objectType, relation);
      found.Ok? && found.value.compiledRewrite.Some? ==> Positive(found.value.compiledRewrite.value)
  }

  ghost predicate Below(lower: Valuation, upper: Valuation) {
    forall node :: lower(node) ==> upper(node)
  }

  lemma {:induction false} ExprMonotone(snapshot: Snapshot, user: User, lower: Valuation, upper: Valuation, node: Node, e: CompiledExpression)
    requires Positive(e) && Below(lower, upper)
    requires ExprHolds(snapshot, user, lower, node, e)
    ensures ExprHolds(snapshot, user, upper, node, e)
  {
    match e
    case Union(children) =>
      var i :| 0 <= i < |children| && ExprHolds(snapshot, user, lower, node, children[i]);
      ExprMonotone(snapshot, user, lower, upper, node, children[i]);
    case Intersection(children) =>
      forall i | 0 <= i < |children| ensures ExprHolds(snapshot, user, upper, node, children[i]) {
        ExprMonotone(snapshot, user, lower, upper, node, children[i]);
      }
    case _ =>
  }

  lemma BodyMonotone(snapshot: Snapshot, user: User, lower: Valuation, upper: Valuation, node: Node)
    requires ExclusionFree(snapshot.schema) && Below(lower, upper)
    requires BodyHolds(snapshot, user, lower, node)
    ensures BodyHolds(snapshot, user, upper, node)
  {
    var definition := snapshot.schema.resolver.Relation(node.entity.namespace, node.relation).value;
    if definition.compiledRewrite.Some? {
      ExprMonotone(snapshot, user, lower, upper, node, definition.compiledRewrite.value);
    }
  }

  lemma {:induction false} IterateGrows(snapshot: Snapshot, user: User, blocked: set<Node>, n: nat, m: nat)
    requires ExclusionFree(snapshot.schema)
    requires n <= m
    ensures Below(Iterate(snapshot, user, blocked, n), Iterate(snapshot, user, blocked, m))
  {
    hide BodyHolds, ExclusionFree;
    if n > 0 {
      IterateGrows(snapshot, user, blocked, n - 1, m - 1);
      forall node | Iterate(snapshot, user, blocked, n)(node) ensures Iterate(snapshot, user, blocked, m)(node) {
        BodyMonotone(snapshot, user, Iterate(snapshot, user, blocked, n - 1), Iterate(snapshot, user, blocked, m - 1), node);
      }
    }
  }

  lemma {:induction false} BlockingShrinks(snapshot: Snapshot, user: User, blocked: set<Node>, more: set<Node>, n: nat)
    requires ExclusionFree(snapshot.schema)
    requires blocked <= more
    ensures Below(Iterate(snapshot, user, more, n), Iterate(snapshot, user, blocked, n))
  {
    hide BodyHolds, ExclusionFree;
    if n > 0 {
      BlockingShrinks(snapshot, user, blocked, more, n - 1);
      forall node | Iterate(snapshot, user, more, n)(node) ensures Iterate(snapshot, user, blocked, n)(node) {
        BodyMonotone(snapshot, user, Iterate(snapshot, user, more, n - 1), Iterate(snapshot, user, blocked, n - 1), node);
      }
    }
  }

  /** A rewrite that holds over the least solution already holds at some finite stage. */
  lemma {:induction false} ExprContinuous(snapshot: Snapshot, user: User, blocked: set<Node>, node: Node, e: CompiledExpression) returns (n: nat)
    requires ExclusionFree(snapshot.schema) && Positive(e)
    requires ExprHolds(snapshot, user, Least(snapshot, user, blocked), node, e)
    ensures ExprHolds(snapshot, user, Iterate(snapshot, user, blocked, n), node, e)
    decreases e, 1
  {
    n := 0;
    match e
    case This => n := ThisContinuous(snapshot, user, blocked, node);
    case ComputedUserset(_, id, _) =>
      n :| Iterate(snapshot, user, blocked, n)(Node(node.entity, NameOf(snapshot.schema, id)));
    case TupleToUserset(_, id, computed) =>
      var row :| && row in RowsOn(snapshot.rows, node.entity, NameOf(snapshot.schema, id)) && row.subject.UsersetSubject?
                 && Least(snapshot, user, blocked)(Node(row.subject.entity, computed));
      n :| Iterate(snapshot, user, blocked, n)(Node(row.subject.entity, computed));
    case Union(children) =>
      var i :| 0 <= i < |children| && ExprHolds(snapshot, user, Least(snapshot, user, blocked), node, children[i]);
      n := ExprContinuous(snapshot, user, blocked, node, children[i]);
    case Intersection(children) => n := ChildrenContinuous(snapshot, user, blocked, node, children);
    case Exclusion(_, _) =>
  }

  lemma ThisContinuous(snapshot: Snapshot, user: User, blocked: set<Node>, node: Node) returns (n: nat)
    requires ThisHolds(snapshot.rows, user, Least(snapshot, user, blocked), node)
    ensures ThisHolds(snapshot.rows, user, Iterate(snapshot, user, blocked, n), node)
  {
    n := 0;
    if !DirectMember(snapshot.rows, user, node) {
      var row :| && row in RowsOn(snapshot.rows, node.entity, node.relation) && row.subject.UsersetSubject?
                 && Least(snapshot, user, blocked)(Node(row.subject.entity, row.subject.relation));
      n :| Iterate(snapshot, user, blocked, n)(Node(row.subject.entity, row.subject.relation));
    }
  }

  lemma {:induction false} ChildrenContinuous(snapshot: Snapshot, user: User, blocked: set<Node>, node: Node, children: seq<CompiledExpression>) returns (n: nat)
    requires ExclusionFree(snapshot.schema)
    requires forall i :: 0 <= i < |children| ==>
               Positive(children[i]) && ExprHolds(snapshot, user, Least(snapshot, user, blocked), node, children[i])
    ensures forall i :: 0 <= i < |children| ==> ExprHolds(snapshot, user, Iterate(snapshot, user, blocked, n), node, children[i])
    decreases children, 0
  {
    n := 0;
    if children != [] {
      var first := ExprContinuous(snapshot, user, blocked, node, children[0]);
      var rest := ChildrenContinuous(snapshot, user, blocked, node, children[1..]);
      n := if first < rest then rest else first;
      IterateGrows(snapshot, user, blocked, first, n);
      IterateGrows(snapshot, user, blocked, rest, n);
      forall i | 0 <= i < |children| ensures ExprHolds(snapshot, user, Iterate(snapshot, user, blocked, n), node, children[i]) {
        ExprMonotone(snapshot, user, Iterate(snapshot, user, blocked, if i == 0 then first else rest),
                     Iterate(snapshot, user, blocked, n), node, if i == 0 then children[0] else children[1..][i - 1]);
      }
    }
  }

  lemma BodyContinuous(snapshot: Snapshot, user: User, blocked: set<Node>, node: Node) returns (n: nat)
    requires ExclusionFree(snapshot.schema)
    requires BodyHolds(snapshot, user, Least(snapshot, user, blocked), node)
    ensures BodyHolds(snapshot, user, Iterate(snapshot, user, blocked, n), node)
  {
    var definition := snapshot.schema.resolver.Relation(node.entity.namespace, node.relation).value;
    if definition.compiledRewrite.Some? {
      n := ExprContinuous(snapshot, user, blocked, node, definition.compiledRewrite.value);
    } else {
      n := ThisContinuous(snapshot, user, blocked, node);
    }
  }

  /** The least valuation is a fixpoint of the unblocked equations. */
  lemma LeastIsFixpoint(snapshot: Snapshot, user: User, blocked: set<Node>, node: Node)
    requires ExclusionFree(snapshot.schema)
    ensures Least(snapshot, user, blocked)(node) <==> node !in blocked && BodyHolds(snapshot, user, Least(snapshot, user, blocked), node)
  {
    if Least(snapshot, user, blocked)(node) {
      var n: nat :| Iterate(snapshot, user, blocked, n)(node);
      BodyMonotone(snapshot, user, Iterate(snapshot, user, blocked, n - 1), Least(snapshot, user, blocked), node);
    }
    if node !in blocked && BodyHolds(snapshot, user, Least(snapshot, user, blocked), node) {
      var n := BodyContinuous(snapshot, user, blocked, node);
      assert Iterate(snapshot, user, blocked, n + 1)(node);
    }
  }

  /** Every solution of the equations contains the least one. */
  lemma {:induction false} LeastIsLeast(snapshot: Snapshot, user: User, val: Valuation, n: nat)
    requires ExclusionFree(snapshot.schema)
    requires Solves(snapshot, user, val)
    ensures Below(Iterate(snapshot, user, {}, n), val)
  {
    if n > 0 {
      LeastIsLeast(snapshot, user, val, n - 1);
      forall node | Iterate(snapshot, user, {}, n)(node) ensures val(node) {
        BodyMonotone(snapshot, user, Iterate(snapshot, user, {}, n - 1), val, node);
      }
    }
  }

  /** Up to the stage before `node` first appears, blocking `node` changes nothing. */
  lemma {:induction false} BlockingUnreached(snapshot: Snapshot, user: User, blocked: set<Node>, node: Node, n: nat)
    requires ExclusionFree(snapshot.schema)
    requires !Iterate(snapshot, user, blocked, n)(node)
    ensures Below(Iterate(snapshot, user, blocked, n), Iterate(snapshot, user, blocked + {node}, n))
  {
    hide BodyHolds, ExclusionFree;
    if n > 0 {
      IterateGrows(snapshot, user, blocked, n - 1, n);
      BlockingUnreached(snapshot, user, blocked, node, n - 1);
      forall k | Iterate(snapshot, user, blocked, n)(k) ensures Iterate(snapshot, user, blocked + {node}, n)(k) {
        BodyMonotone(snapshot, user, Iterate(snapshot, user, blocked, n - 1), Iterate(snapshot, user, blocked + {node}, n - 1), k);
      }
    }
  }

  lemma StageIsBelowLeast(snapshot: Snapshot, user: User, blocked: set<Node>, n: nat)
    ensures Below(Iterate(snapshot, user, blocked, n), Least(snapshot, user, blocked))
  {
  }

  lemma StageHoldsWithoutSelf(snapshot: Snapshot, user: User, blocked: set<Node>, node: Node, before: nat)
    requires ExclusionFree(snapshot.schema)
    requires Iterate(snapshot, user, blocked, before + 1)(node) && !Iterate(snapshot, user, blocked, before)(node)
    ensures BodyHolds(snapshot, user, Iterate(snapshot, user, blocked + {node}, before), node)
  {
    BlockingUnreached(snapshot, user, blocked, node, before);
    BodyMonotone(snapshot, user, Iterate(snapshot, user, blocked, before), Iterate(snapshot, user, blocked + {node}, before), node);
  }

  lemma FirstReachedWithoutSelf(snapshot: Snapshot, user: User, blocked: set<Node>, node: Node, before: nat)
    requires ExclusionFree(snapshot.schema)
    requires Iterate(snapshot, user, blocked, before + 1)(node) && !Iterate(snapshot, user, blocked, before)(node)
    ensures BodyHolds(snapshot, user, Least(snapshot, user, blocked + {node}), node)
  {
    StageHoldsWithoutSelf(snapshot, user, blocked, node, before);
    StageIsBelowLeast(snapshot, user, blocked + {node}, before);
    BodyMonotone(snapshot, user, Iterate(snapshot, user, blocked + {node}, before), Least(snapshot, user, blocked + {node}), node);
  }

  lemma {:induction false} ReachedWithoutSelf(snapshot: Snapshot, user: User, blocked: set<Node>, node: Node, n: nat)
    requires ExclusionFree(snapshot.schema)
    requires Iterate(snapshot, user, blocked, n)(node)
    ensures BodyHolds(snapshot, user, Least(snapshot, user, blocked + {node}), node)
  {
    hide ExclusionFree, BodyHolds, Least;
    if Iterate(snapshot, user, blocked, n - 1)(node) {
      ReachedWithoutSelf(snapshot, user, blocked, node, n - 1);
    } else {
      FirstReachedWithoutSelf(snapshot, user, blocked, node, n - 1);
    }
  }

  lemma LeastShrinks(snapshot: Snapshot, user: User, blocked: set<Node>, more: set<Node>)
    requires ExclusionFree(snapshot.schema)
    requires blocked <= more
    ensures Below(Least(snapshot, user, more), Least(snapshot, user, blocked))
  {
    forall k | Least(snapshot, user, more)(k) ensures Least(snapshot, user, blocked)(k) {
      var n: nat :| Iterate(snapshot, user, more, n)(k);
      BlockingShrinks(snapshot, user, blocked, more, n);
    }
  }

  /** The step that justifies answering "denied" for an active key: a node is in the least solution
      exactly when its body holds over the least solution in which the node itself is empty. */
  lemma BlockingSelf(snapshot: Snapshot, user: User, blocked: set<Node>, node: Node)
    requires ExclusionFree(snapshot.schema)
    requires node !in blocked
    ensures Least(snapshot, user, blocked)(node) <==> BodyHolds(snapshot, user, Least(snapshot, user, blocked + {node}), node)
  {
    if Least(snapshot, user, blocked)(node) {
      var n: nat :| Iterate(snapshot, user, blocked, n)(node);
      ReachedWithoutSelf(snapshot, user, blocked, node, n);
    }
    if BodyHolds(snapshot, user, Least(snapshot, user, blocked + {node}), node) {
      LeastShrinks(snapshot, user, blocked, blocked + {node});
      BodyMonotone(snapshot, user, Least(snapshot, user, blocked + {node}), Least(snapshot, user, blocked), node);
      LeastIsFixpoint(snapshot, user, blocked, node);
    }
  }

  lemma {:induction false} StagesWithoutStrangers(snapshot: Snapshot, user: User, blocked: set<Node>, n: nat)
    requires ExclusionFree(snapshot.schema) && forall node :: node in blocked ==> !Least(snapshot, user, {})(node)
    ensures Below(Iterate(snapshot, user, {}, n), Iterate(snapshot, user, blocked, n))
  {
    hide BodyHolds, ExclusionFree;
    if n > 0 {
      StagesWithoutStrangers(snapshot, user, blocked, n - 1);
      forall k | Iterate(snapshot, user, {}, n)(k) ensures Iterate(snapshot, user, blocked, n)(k) {
        BodyMonotone(snapshot, user, Iterate(snapshot, user, {}, n - 1), Iterate(snapshot, user, blocked, n - 1), k);
        assert Least(snapshot, user, {})(k);
      }
    }
  }

  /** Forcing usersets empty changes nothing exactly if the user is in none of them. */
  lemma BlockingStrangers(snapshot: Snapshot, user: User, blocked: set<Node>)
    requires ExclusionFree(snapshot.schema)
    ensures (forall node :: Least(snapshot, user, blocked)(node) <==> Least(snapshot, user, {})(node))
            <==> forall node :: node in blocked ==> !Least(snapshot, user, {})(node)
  {
    hide BodyHolds, ExclusionFree;
    forall node | node in blocked ensures !Least(snapshot, user, blocked)(node) {
      LeastIsFixpoint(snapshot, user, blocked, node);
    }
    if forall node :: node in blocked ==> !Least(snapshot, user, {})(node) {
      LeastShrinks(snapshot, user, {}, blocked);
      forall node | Least(snapshot, user, {})(node) ensures Least(snapshot, user, blocked)(node) {
        var n: nat :| Iterate(snapshot, user, {}, n)(node);
        StagesWithoutStrangers(snapshot, user, blocked, n);
      }
    }
  }

  // ---------------------------------------------------------------- acyclic data

  type Rank = Node -> nat

  ghost predicate RankedThis(rows: Rows, rank: Rank, bound: nat, node: Node) {
    forall row :: row in RowsOn(rows, node.entity, node.relation) && row.subject.UsersetSubject? ==>
      rank(Node(row.subject.entity, row.subject.relation)) < bound
  }

  /** Every userset the rewrite may consult at `node` ranks below `bound`. */
  ghost predicate RankedExpr(snapshot: Snapshot, rank: Rank, bound: nat, node: Node, e: CompiledExpression) {
    match e
    case This => RankedThis(snapshot.rows, rank, bound, node)
    case ComputedUserset(_, id, _) => rank(Node(node.entity, NameOf(snapshot.schema, id))) < bound
    case TupleToUserset(_, id, computed) =>
      forall row :: row in RowsOn(snapshot.rows, node.entity, NameOf(snapshot.schema, id)) && row.subject.UsersetSubject? ==>
        rank(Node(row.subject.entity, computed)) < bound
    case Union(children) => forall i :: 0 <= i < |children| ==> RankedExpr(snapshot, rank, bound, node, children[i])
    case Intersection(children) => forall i :: 0 <= i < |children| ==> RankedExpr(snapshot, rank, bound, node, children[i])
    case Exclusion(base, exclude) => RankedExpr(snapshot, rank, bound, node, base) && RankedExpr(snapshot, rank, bound, node, exclude)
  }

  ghost predicate RankedDefinition(snapshot: Snapshot, rank: Rank, bound: nat, node: Node, definition: RelationDefinition) {
    match definition.compiledRewrite
    case Some(e) => RankedExpr(snapshot, rank, bound, node, e)
    case None => RankedThis(snapshot.rows, rank, bound, node)
  }

  /** The data has no dependency cycle: `rank` decreases along every dependency. */
  ghost predicate Acyclic(snapshot: Snapshot, rank: Rank) {
    forall node: Node ::
      var found := snapshot.schema.resolver.Relation(node.entity.namespace, node.relation);
      found.Ok? ==> RankedDefinition(snapshot, rank, rank(node), node, found.value)
  }

  ghost predicate AgreeBelow(rank: Rank, bound: nat, left: Valuation, right: Valuation) {
    forall node :: rank(node) < bound ==> left(node) == right(node)
  }

  lemma {:induction false} ExprAgrees(snapshot: Snapshot, user: User, rank: Rank, bound: nat, left: Valuation, right: Valuation, node: Node, e: CompiledExpression)
    requires RankedExpr(snapshot, rank, bound, node, e)
    requires AgreeBelow(rank, bound, left, right)
    ensures ExprHolds(snapshot, user, left, node, e) == ExprHolds(snapshot, user, right, node, e)
  {
    match e
    case Union(children) =>
      forall i | 0 <= i < |children| { ExprAgrees(snapshot, user, rank, bound, left, right, node, children[i]); }
    case Intersection(children) =>
      forall i | 0 <= i < |children| { ExprAgrees(snapshot, user, rank, bound, left, right, node, children[i]); }
    case Exclusion(base, exclude) =>
      ExprAgrees(snapshot, user, rank, bound, left, right, node, base);
      ExprAgrees(snapshot, user, rank, bound, left, right, node, exclude);
    case _ =>
  }

  lemma BodyAgrees(snapshot: Snapshot, user: User, rank: Rank, left: Valuation, right: Valuation, node: Node)
    requires Acyclic(snapshot, rank)
    requires AgreeBelow(rank, rank(node), left, right)
    ensures BodyHolds(snapshot, user, left, node) == BodyHolds(snapshot, user, right, node)
  {
    var found := snapshot.schema.resolver.Relation(node.entity.namespace, node.relation);
    if found.Ok? && found.value.compiledRewrite.Some? {
      ExprAgrees(snapshot, user, rank, rank(node), left, right, node, found.value.compiledRewrite.value);
    }
  }

  /** On acyclic data any two solutions coincide with every late enough iterate. */
  lemma {:induction false} SolutionIsIterate(snapshot: Snapshot, user: User, rank: Rank, val: Valuation, node: Node, n: nat)
    requires Acyclic(snapshot, rank)
    requires Solves(snapshot, user, val)
    requires rank(node) < n
    ensures Iterate(snapshot, user, {}, n)(node) == val(node)
    decreases rank(node)
  {
    hide Acyclic, BodyHolds;
    var before := Iterate(snapshot, user, {}, n - 1);
    forall k | rank(k) < rank(node) ensures before(k) == val(k) {
      SolutionIsIterate(snapshot, user, rank, val, k, n - 1);
    }
    BodyAgrees(snapshot, user, rank, before, val, node);
  }

  lemma {:induction false} IteratesSettle(snapshot: Snapshot, user: User, rank: Rank, node: Node, n: nat, m: nat)
    requires Acyclic(snapshot, rank)
    requires rank(node) < n && rank(node) < m
    ensures Iterate(snapshot, user, {}, n)(node) == Iterate(snapshot, user, {}, m)(node)
    decreases rank(node)
  {
    hide Acyclic, BodyHolds;
    var left, right := Iterate(snapshot, user, {}, n - 1), Iterate(snapshot, user, {}, m - 1);
    forall k | rank(k) < rank(node) ensures left(k) == right(k) {
      IteratesSettle(snapshot, user, rank, k, n - 1, m - 1);
    }
    BodyAgrees(snapshot, user, rank, left, right, node);
  }

  lemma MemberOfAcyclic(snapshot: Snapshot, user: User, rank: Rank, node: Node)
    requires Acyclic(snapshot, rank)
    ensures Member(snapshot, user)(node) <==> Iterate(snapshot, user, {}, rank(node) + 1)(node)
  {
    hide Acyclic, BodyHolds;
    if Member(snapshot, user)(node) {
      var from: nat :| Settled(snapshot, user, node, from);
      IteratesSettle(snapshot, user, rank, node, from + rank(node) + 1, rank(node) + 1);
    }
    if Iterate(snapshot, user, {}, rank(node) + 1)(node) {
      forall n: nat | rank(node) + 1 <= n ensures Iterate(snapshot, user, {}, n)(node) {
        IteratesSettle(snapshot, user, rank, node, n, rank(node) + 1);
      }
      assert Settled(snapshot, user, node, rank(node) + 1);
    }
  }

  lemma MemberOfPositive(snapshot: Snapshot, user: User, node: Node)
    requires ExclusionFree(snapshot.schema)
    ensures Member(snapshot, user)(node) <==> Least(snapshot, user, {})(node)
  {
    hide ExclusionFree, BodyHolds;
    if Member(snapshot, user)(node) {
      var from: nat :| Settled(snapshot, user, node, from);
      assert Iterate(snapshot, user, {}, from)(node);
    }
    if Least(snapshot, user, {})(node) {
      var from: nat :| Iterate(snapshot, user, {}, from)(node);
      forall n: nat | from <= n ensures Iterate(snapshot, user, {}, n)(node) {
        IterateGrows(snapshot, user, {}, from, n);
      }
      assert Settled(snapshot, user, node, from);
    }
  }

  /** Schemas and data for which membership is well defined: no exclusion, or no cycle. */
  ghost predicate Regular(snapshot: Snapshot) {
    ExclusionFree(snapshot.schema) || exists rank :: Acyclic(snapshot, rank)
  }

  /** Membership solves the schema's equations. */
  lemma MemberSolves(snapshot: Snapshot, user: User)
    requires Regular(snapshot)
    ensures Solves(snapshot, user, Member(snapshot, user))
  {
    hide Acyclic, ExclusionFree, BodyHolds, Member;
    forall node ensures Member(snapshot, user)(node) <==> BodyHolds(snapshot, user, Member(snapshot, user), node) {
      if ExclusionFree(snapshot.schema) {
        PositiveMemberEquation(snapshot, user, node);
      } else {
        var rank :| Acyclic(snapshot, rank);
        AcyclicMemberEquation(snapshot, user, rank, node);
      }
    }
  }

  lemma PositiveMemberEquation(snapshot: Snapshot, user: User, node: Node)
    requires ExclusionFree(snapshot.schema)
    ensures Member(snapshot, user)(node) <==> BodyHolds(snapshot, user, Member(snapshot, user), node)
  {
    hide ExclusionFree, BodyHolds, Member, Least;
    forall k ensures Member(snapshot, user)(k) <==> Least(snapshot, user, {})(k) {
      MemberOfPositive(snapshot, user, k);
    }
    LeastIsFixpoint(snapshot, user, {}, node);
    if BodyHolds(snapshot, user, Member(snapshot, user), node) {
      BodyMonotone(snapshot, user, Member(snapshot, user), Least(snapshot, user, {}), node);
    }
    if BodyHolds(snapshot, user, Least(snapshot, user, {}), node) {
      BodyMonotone(snapshot, user, Least(snapshot, user, {}), Member(snapshot, user), node);
    }
  }

  lemma MemberAgreesBelow(snapshot: Snapshot, user: User, rank: Rank, bound: nat)
    requires Acyclic(snapshot, rank)
    ensures AgreeBelow(rank, bound, Iterate(snapshot, user, {}, bound), Member(snapshot, user))
  {
    hide Acyclic, BodyHolds, Member, Iterate;
    forall k | rank(k) < bound ensures Iterate(snapshot, user, {}, bound)(k) == Member(snapshot, user)(k) {
      MemberOfAcyclic(snapshot, user, rank, k);
      IteratesSettle(snapshot, user, rank, k, bound, rank(k) + 1);
    }
  }

  lemma AcyclicMemberEquation(snapshot: Snapshot, user: User, rank: Rank, node: Node)
    requires Acyclic(snapshot, rank)
    ensures Member(snapshot, user)(node) <==> BodyHolds(snapshot, user, Member(snapshot, user), node)
  {
    hide Acyclic, BodyHolds, Member;
    MemberOfAcyclic(snapshot, user, rank, node);
    MemberAgreesBelow(snapshot, user, rank, rank(node));
    BodyAgrees(snapshot, user, rank, Iterate(snapshot, user, {}, rank(node)), Member(snapshot, user), node);
  }

  /** On acyclic data, exclusion included, membership is the only solution. */
  lemma MemberIsUnique(snapshot: Snapshot, user: User, rank: Rank, val: Valuation, node: Node)
    requires Acyclic(snapshot, rank)
    requires Solves(snapshot, user, val)
    ensures val(node) == Member(snapshot, user)(node)
  {
    SolutionIsIterate(snapshot, user, rank, val, node, rank(node) + 1);
    MemberOfAcyclic(snapshot, user, rank, node);
  }
}
