/** Which relations of a namespace a rewrite leads to: through computed usersets on the same object,
    and through tuple-to-userset rewrites to other objects. Only the operands that can make a rewrite
    hold count, so what an exclusion takes away is not followed. */
module RelationReach {
  import opened Vocabulary
  import opened Schema

  predicate Uses(e: CompiledExpression, relation: string) {
    match e
    case ComputedUserset(used, _, _) => used == relation
    case Union(children) => exists i :: 0 <= i < |children| && Uses(children[i], relation)
    case Intersection(children) => exists i :: 0 <= i < |children| && Uses(children[i], relation)
    case Exclusion(base, _) => Uses(base, relation)
    case _ => false
  }

  predicate UsesTuple(e: CompiledExpression, tupleset: string, computed: string) {
    match e
    case TupleToUserset(used, _, target) => used == tupleset && target == computed
    case Union(children) => exists i :: 0 <= i < |children| && UsesTuple(children[i], tupleset, computed)
    case Intersection(children) => exists i :: 0 <= i < |children| && UsesTuple(children[i], tupleset, computed)
    case Exclusion(base, _) => UsesTuple(base, tupleset, computed)
    case _ => false
  }

  function RewriteOf(schema: CompiledSchema, namespace: string, relation: string): Option<CompiledExpression> {
    match schema.resolver.Relation(namespace, relation)
    case Ok(definition) => definition.compiledRewrite
    case Err(_) => None
  }

  /** The rewrite of `from` refers to `to` on the same object. */
  predicate Edge(schema: CompiledSchema, namespace: string, from: string, to: string) {
    var rewrite := RewriteOf(schema, namespace, from);
    rewrite.Some? && Uses(rewrite.value, to)
  }

  /** The rewrite of `relation` contains that tuple-to-userset rewrite. */
  predicate TupleIn(schema: CompiledSchema, namespace: string, relation: string, tupleset: string, computed: string) {
    var rewrite := RewriteOf(schema, namespace, relation);
    rewrite.Some? && UsesTuple(rewrite.value, tupleset, computed)
  }

  predicate Path(schema: CompiledSchema, namespace: string, path: seq<string>) {
    forall k :: 0 <= k < |path| - 1 ==> Edge(schema, namespace, path[k], path[k + 1])
  }

  ghost predicate PathBetween(schema: CompiledSchema, namespace: string, path: seq<string>, from: string, to: string) {
    path != [] && path[0] == from && path[|path| - 1] == to && Path(schema, namespace, path)
  }

  /** `from` is `to` or leads to it: holding `to` on an object may make one hold `from`. */
  ghost predicate Includes(schema: CompiledSchema, namespace: string, from: string, to: string) {
    exists path :: PathBetween(schema, namespace, path, from, to)
  }

  /** `relation`, or one it leads to on the same object, contains that tuple-to-userset rewrite. */
  ghost predicate TupleBelow(schema: CompiledSchema, namespace: string, relation: string, tupleset: string, computed: string) {
    exists below :: Includes(schema, namespace, relation, below) && TupleIn(schema, namespace, below, tupleset, computed)
  }

  lemma IncludesItself(schema: CompiledSchema, namespace: string, relation: string)
    ensures Includes(schema, namespace, relation, relation)
  {
    assert PathBetween(schema, namespace, [relation], relation, relation);
  }

  lemma IncludesThroughEdge(schema: CompiledSchema, namespace: string, from: string, via: string, to: string)
    requires Edge(schema, namespace, from, via) && Includes(schema, namespace, via, to)
    ensures Includes(schema, namespace, from, to)
  {
    var path :| PathBetween(schema, namespace, path, via, to);
    assert PathBetween(schema, namespace, [from] + path, from, to);
  }

  predicate Simple(path: seq<string>) {
    forall i, j :: 0 <= i < j < |path| ==> path[i] != path[j]
  }

  /** Loops can be cut out of a path. */
  lemma {:induction false} SimplePath(schema: CompiledSchema, namespace: string, path: seq<string>, from: string, to: string)
    returns (simple: seq<string>)
    requires PathBetween(schema, namespace, path, from, to)
    ensures PathBetween(schema, namespace, simple, from, to) && Simple(simple)
    decreases |path|
  {
    if |path| == 1 {
      simple := path;
    } else {
      var rest := SimplePath(schema, namespace, path[1..], path[1], to);
      if from in rest {
        var k :| 0 <= k < |rest| && rest[k] == from;
        simple := rest[k..];
      } else {
        simple := [from] + rest;
      }
    }
  }

  /** A relation other than `to` that includes `to` does so along a path without repetition that takes a step. */
  lemma SimpleSteps(schema: CompiledSchema, namespace: string, from: string, to: string) returns (simple: seq<string>)
    requires Includes(schema, namespace, from, to)
    ensures PathBetween(schema, namespace, simple, from, to) && Simple(simple)
    ensures from != to ==> |simple| >= 2
  {
    var path :| PathBetween(schema, namespace, path, from, to);
    simple := SimplePath(schema, namespace, path, from, to);
  }
}
