/** Which resources a subject holds a permission on: a breadth-first walk from the subject over the
    rows that name it, checking each resource of the requested type once. */
module LookupResources {
  import opened Vocabulary
  import opened Domain
  import opened Schema
  import opened Semantics
  import opened MembershipAlgebra
  import opened CheckSpec
  import opened CheckCorrect
  import opened ActiveStack
  import opened Evaluator
  import opened MemoCorrect
  import opened Planner
  import opened RelationEdges
  import opened ResourceWalk
  import opened ResourceCoverage
  import opened ResourceClosure
  import opened ResourceBounds

  // ---------------------------------------------------------------- what makes an answer right

  /** Acyclic data on which the direct test is exact: every verification answers the truth. */
  ghost predicate Decidable(snapshot: Snapshot, user: User) {
    WellFormed(snapshot.schema) && DirectExact(snapshot.rows, user) && exists rank :: Acyclic(snapshot, rank)
  }

  /** Snapshots on which everything a lookup returns is a member: no exclusion, or no cycle. */
  ghost predicate Trustworthy(snapshot: Snapshot, user: User) {
    (WellFormed(snapshot.schema) && ExclusionFree(snapshot.schema)) || Decidable(snapshot, user)
  }

  ghost function TrustFor(snapshot: Snapshot, user: User): (trust: Trust)
    ensures Justified(snapshot, user, trust)
    ensures Trustworthy(snapshot, user) <==> !trust.Untrusted?
    ensures Decidable(snapshot, user) <==> trust.OnAcyclic?
  {
    if Decidable(snapshot, user) then var rank :| Acyclic(snapshot, rank); OnAcyclic(rank)
    else if Trustworthy(snapshot, user) then OnPositive
    else Untrusted
  }

  lemma TrustedIsRegular(snapshot: Snapshot, user: User, trust: Trust)
    requires Justified(snapshot, user, trust) && !trust.Untrusted?
    ensures Regular(snapshot) && WellFormed(snapshot.schema)
  {
    if trust.OnAcyclic? {
      assert Acyclic(snapshot, trust.rank);
    }
  }

  /** A verification that may be used for `entity`: passing it means membership. */
  ghost predicate Decides(snapshot: Snapshot, user: User, trust: Trust, entity: Object, permission: string, verification: Verification) {
    match verification
    case FullRoot => true
    case ProvenWithoutCheck => Member(snapshot, user)(Node(entity, permission))
    case Residual(checks) =>
      && BodyReady(snapshot, trust, NestedKey(snapshot, entity, permission, user), Residuals(checks))
      && (ResidualsHold(snapshot, user, Member(snapshot, user), entity, checks) ==> Member(snapshot, user)(Node(entity, permission)))
  }

  lemma FullRootDecides(snapshot: Snapshot, user: User, trust: Trust, entity: Object, permission: string)
    ensures Decides(snapshot, user, trust, entity, permission, FullRoot)
  {
  }

  /** A rule picked for a row that names the subject itself decides membership. */
  lemma RuleDecides(snapshot: Snapshot, trust: Trust, request: LookupRequest, row: Relationship)
    requires !trust.Untrusted? && Justified(snapshot, request.subject, trust)
    requires row.resource.namespace == request.resourceType
    requires Live(snapshot.rows, row) && MatchesSubject(row.subject, FilterOf(request.subject))
    requires var plan := LookupProducerPlan(snapshot.schema, request.resourceType, request.permission);
             plan.Ok? && plan.value.Some?
    ensures var plan := LookupProducerPlan(snapshot.schema, request.resourceType, request.permission);
            Decides(snapshot, request.subject, trust, row.resource, request.permission, RuleFor(plan.value.value.rules, row.relation))
  {
    hide Member, Justified, LookupProducerPlan, ResidualReady, AnyPossible;
    var rules := LookupProducerPlan(snapshot.schema, request.resourceType, request.permission).value.value.rules;
    TrustedIsRegular(snapshot, request.subject, trust);
    MemberSolves(snapshot, request.subject);
    LookupPlanIsCorrect(snapshot, request.subject, Member(snapshot, request.subject), row.resource, request.permission);
    LookupPlanIsReady(snapshot, request.subject, trust, row.resource, request.permission);
    RuleIsListed(rules, row.relation);
    var verification := RuleFor(rules, row.relation);
    if !verification.FullRoot? {
      var i :| 0 <= i < |rules| && rules[i] == Rule(row.relation, verification);
      assert DirectMember(snapshot.rows, request.subject, Node(row.resource, row.relation));
      assert Sufficient(snapshot, request.subject, Member(snapshot, request.subject), row.resource, rules[i],
                        Member(snapshot, request.subject)(Node(row.resource, request.permission)));
      assert ChecksReady(snapshot, trust, BoundAt(trust, Node(row.resource, request.permission)), row.resource, rules[i].verification);
    }
  }

  // ---------------------------------------------------------------- the walk

  class ResourceLookup {
    const walk: Walk
    const context: EvaluationContext
    ghost const trust: Trust
    var frontier: seq<FrontierEntry>
    var visited: set<User>
    var seen: set<Object>
    var resources: seq<Object>
    var pruning: bool
    var sampled: nat
    var pruned: nat

    ghost predicate Valid()
      reads this, context, context.checks, context.expands
    {
      && context.Valid() && context.snapshot == walk.snapshot && context.limits == walk.limits && context.memo.Some?
      && Justified(walk.snapshot, walk.request.subject, trust) && MemoReady(walk.snapshot, walk.request.subject, context.memo, trust)
      && (walk.plan.Some? ==> LookupProducerPlan(walk.snapshot.schema, walk.request.resourceType, walk.request.permission) == Ok(walk.plan))
      && visited <= WalkSpace(walk.snapshot, walk.request.subject)
      && (forall i :: 0 <= i < |frontier| ==> EntryValid(frontier[i]))
      && Distinct(resources)
      && (forall o :: o in resources ==> o in seen && walk.OfRequestedType(o))
      && |resources| <= walk.limits.maxLookupResults
    }

    ghost predicate EntryValid(entry: FrontierEntry)
      reads this
    {
      && entry.subject in visited
      && (entry.proof.exact && entry.proof.directDepth == 0 ==> entry.subject == walk.request.subject)
    }

    ghost function State(): WalkState
      reads this
    {
      WalkState(frontier, visited, seen, resources, pruning, sampled, pruned)
    }

    predicate Full()
      reads this
    {
      |resources| >= walk.limits.maxLookupResults
    }

    /** Everything returned so far is a member. */
    ghost predicate Sound()
      reads this
    {
      !trust.Untrusted? ==> forall o :: o in resources ==> walk.Holds(o)
    }

    /** Verifications answer the truth, so the walk is the specified one. */
    ghost predicate Exact() { trust.OnAcyclic? }

    /** Bounds the subjects still to be walked. */
    ghost function Ahead(): nat
      reads this
    {
      |WalkSpace(walk.snapshot, walk.request.subject) - visited| + |frontier|
    }

    constructor (walk: Walk)
      requires LookupProducerPlan(walk.snapshot.schema, walk.request.resourceType, walk.request.permission) == Ok(walk.plan)
      ensures Valid() && Sound() && State() == Start(walk)
      ensures this.walk == walk
      ensures trust.Untrusted? <==> !Trustworthy(walk.snapshot, walk.request.subject)
      ensures Exact() <==> Decidable(walk.snapshot, walk.request.subject)
      ensures fresh(context) && fresh(context.checks) && fresh(context.expands)
    {
      hide Justified, LookupProducerPlan, Member, Trustworthy, Decidable;
      this.walk := walk;
      context := new EvaluationContext.WithRequestMemo(walk.snapshot, walk.limits);
      trust := TrustFor(walk.snapshot, walk.request.subject);
      frontier := [FrontierEntry(walk.request.subject, SubjectProof(0, true))];
      visited, seen, resources := {walk.request.subject}, {}, [];
      pruning, sampled, pruned := walk.plan.Some?, 0, 0;
    }

    method Enqueue(subject: User, proof: SubjectProof)
      requires Valid() && Sound() && subject in WalkSpace(walk.snapshot, walk.request.subject)
      requires !(proof.exact && proof.directDepth == 0)
      modifies this`frontier, this`visited
      ensures Valid() && Sound() && State() == Enqueued(old(State()), subject, proof)
      ensures Ahead() <= old(Ahead()) && old(visited) <= visited
    {
      hide WalkSpace, Justified, LookupProducerPlan, Member;
      if subject !in visited {
        ghost var space := WalkSpace(walk.snapshot, walk.request.subject);
        assert space - (visited + {subject}) == space - visited - {subject};
        visited := visited + {subject};
        frontier := frontier + [FrontierEntry(subject, proof)];
      }
    }

    /** Whether a row on an unplanned relation may be skipped. Sampling gives pruning up when it does
        not pay. */
    method ShouldPrune(row: Relationship) returns (prune: bool)
      requires Valid() && Sound() && walk.plan.Some? && walk.OfRequestedType(row.resource)
      modifies this`pruning, this`sampled, this`pruned
      ensures Valid() && Sound()
      ensures prune == Prunes(walk, old(State()), row) && State() == Sampled(walk, old(State()), row)
    {
      hide WalkSpace, Justified, LookupProducerPlan, Member;
      if !pruning {
        return false;
      }
      prune := row.relation !in walk.plan.value.relations;
      if sampled < SAMPLE_RELATIONSHIPS {
        sampled := sampled + 1;
        if prune {
          pruned := pruned + 1;
        }
        if sampled == SAMPLE_RELATIONSHIPS && pruned * 10000 < MIN_PRUNE_BASIS_POINTS * sampled {
          pruning := false;
        }
      }
    }

    /** A verification other than a full check is chosen only where it decides membership. */
    lemma ChosenDecides(row: Relationship, entry: FrontierEntry, proof: SubjectProof)
      requires Valid() && EntryValid(entry) && !trust.Untrusted?
      requires walk.OfRequestedType(row.resource)
      requires Live(walk.snapshot.rows, row) && MatchesSubject(row.subject, FilterOf(entry.subject))
      requires walk.RelationshipProof(row, entry.proof) == Ok(proof)
      ensures Decides(walk.snapshot, walk.request.subject, trust, row.resource, walk.request.permission, walk.VerificationFor(row, proof))
    {
      hide WalkSpace, Justified, LookupProducerPlan, Member, MatchesSubject, Decides;
      if walk.plan.None? || !proof.exact || proof.directDepth >= walk.limits.maxDepth {
        FullRootDecides(walk.snapshot, walk.request.subject, trust, row.resource, walk.request.permission);
      } else {
        RuleDecides(walk.snapshot, trust, walk.request, row);
      }
    }

    method Verify(entity: Object, verification: Verification) returns (r: Result<bool, EvaluationError>)
      requires Valid() && Sound()
      requires !trust.Untrusted? ==> Decides(walk.snapshot, walk.request.subject, trust, entity, walk.request.permission, verification)
      modifies context, context.checks, context.expands
      ensures Valid() && Sound()
      ensures !trust.Untrusted? && r == Ok(true) ==> walk.Holds(entity)
      ensures Exact() && r.Ok? ==> r.value == walk.Verdict(entity, verification)
    {
      hide WalkSpace, Justified, LookupProducerPlan, Member, BodyReady, ResidualsHold;
      match verification
      case ProvenWithoutCheck =>
        r := Ok(true);
      case FullRoot =>
        context.ResetForReuse();
        var outcome := context.Check(entity, walk.request.permission, walk.request.subject, trust);
        if outcome.Err? {
          return Err(outcome.error);
        }
        r := Ok(outcome.value == Allowed);
      case Residual(checks) =>
        context.ResetForReuse();
        if !ValidTypeName(walk.request.permission) {
          return Err(InvalidIdentifier);
        }
        var outcome := context.VerifyLookupResiduals(entity, walk.request.permission, walk.request.subject, checks, trust);
        if outcome.Err? {
          return Err(outcome.error);
        }
        r := Ok(outcome.value == Allowed);
    }

    /** Verifies a resource of the requested type on first sight; tells whether the result is full. */
    method Consider(entity: Object, verification: Verification) returns (r: Result<bool, EvaluationError>)
      requires Valid() && Sound() && !Full() && walk.OfRequestedType(entity)
      requires !trust.Untrusted? ==> Decides(walk.snapshot, walk.request.subject, trust, entity, walk.request.permission, verification)
      modifies this`seen, this`resources, context, context.checks, context.expands
      ensures Valid() && Sound()
      ensures r.Ok? ==> r.value == Full()
      ensures r.Ok? && Exact() ==> State() == Considered(walk, old(State()), entity, verification)
    {
      hide WalkSpace, Justified, LookupProducerPlan, Member, Decides;
      if entity in seen {
        return Ok(false);
      }
      seen := seen + {entity};
      var verified :- Verify(entity, verification);
      if verified {
        resources := resources + [entity];
      }
      r := Ok(Full());
    }

    method ConsiderRow(row: Relationship, ghost entry: FrontierEntry, proof: SubjectProof) returns (r: Result<bool, EvaluationError>)
      requires Valid() && Sound() && !Full() && EntryValid(entry)
      requires walk.OfRequestedType(row.resource)
      requires Live(walk.snapshot.rows, row) && MatchesSubject(row.subject, FilterOf(entry.subject))
      requires walk.RelationshipProof(row, entry.proof) == Ok(proof)
      modifies this`seen, this`resources, context, context.checks, context.expands
      ensures Valid() && Sound()
      ensures r.Ok? ==> r.value == Full()
      ensures r.Ok? && Exact() ==> State() == Considered(walk, old(State()), row.resource, walk.VerificationFor(row, proof))
    {
      hide WalkSpace, Justified, LookupProducerPlan, Member, MatchesSubject, Decides, Live, Considered;
      if !trust.Untrusted? {
        ChosenDecides(row, entry, proof);
      }
      r := Consider(row.resource, walk.VerificationFor(row, proof));
    }

    method ProcessRow(row: Relationship, entry: FrontierEntry) returns (r: Result<bool, EvaluationError>)
      requires Valid() && Sound() && !Full() && EntryValid(entry)
      requires Live(walk.snapshot.rows, row) && MatchesSubject(row.subject, FilterOf(entry.subject))
      modifies this, context, context.checks, context.expands
      ensures Valid() && Sound()
      ensures r.Ok? ==> r.value == Full() && Ahead() <= old(Ahead()) && old(visited) <= visited
      ensures r.Ok? && Exact() ==> RowStep(walk, old(State()), row, entry) == Ok(State())
    {
      hide WalkSpace, Justified, LookupProducerPlan, Member, MatchesSubject, Live, Considered, Enqueued;
      var typeMatches := walk.OfRequestedType(row.resource);
      var prune := false;
      if typeMatches && walk.plan.Some? {
        prune := ShouldPrune(row);
      }
      if prune && !walk.posted(SubjectFilter(walk.request.resourceType, None, Some(row.relation))) {
        return Ok(false);
      }
      var proof :- walk.RelationshipProof(row, entry.proof);
      if typeMatches && !prune {
        var full :- ConsiderRow(row, entry, proof);
        if full {
          return Ok(true);
        }
      }
      var next := Userset(row.resource, row.relation);
      RowStaysInSpace(walk.snapshot, walk.request.subject, row);
      if prune && !ValidUser(next) {
        return Err(InvalidIdentifier);
      }
      if !prune || walk.posted(FilterOf(next)) {
        Enqueue(next, proof);
      }
      r := Ok(false);
    }

    /** Follows the schema from a userset to other relations of the same object. */
    method ExpandSameObject(subject: User) returns (r: Result<(), EvaluationError>)
      requires Valid() && Sound() && subject in visited
      modifies this`frontier, this`visited
      ensures Valid() && Sound() && Ahead() <= old(Ahead()) && old(visited) <= visited
      ensures r.Ok? ==> ExpandStep(walk, old(State()), subject) == Ok(State())
    {
      hide WalkSpace, Justified, LookupProducerPlan, Member, SameObjectExpansions, RelationNames, Enqueued;
      if subject.UserId? {
        return Ok(());
      }
      if !ValidTypeName(subject.entity.namespace) || !ValidTypeName(subject.relation) {
        return Err(InvalidIdentifier);
      }
      var targets :- SameObjectExpansions(walk.snapshot.schema, subject.entity.namespace, subject.relation);
      SameObjectEdgesAreNamed(walk.snapshot.schema, subject.entity.namespace, subject.relation);
      ghost var expansion := ExpandTargets(walk, State(), subject.entity, targets);
      for i := 0 to |targets|
        invariant Valid() && Sound() && Ahead() <= old(Ahead()) && old(visited) <= visited
        invariant expansion == ExpandTargets(walk, State(), subject.entity, targets[i..])
      {
        assert targets[i..][1..] == targets[i + 1..];
        var expanded := Userset(subject.entity, targets[i]);
        if !ValidUser(expanded) {
          return Err(InvalidIdentifier);
        }
        if walk.posted(FilterOf(expanded)) {
          EdgeStaysInSpace(walk.snapshot, walk.request.subject, subject, targets[i]);
          Enqueue(expanded, INEXACT);
        }
      }
      r := Ok(());
    }

    /** Follows rows that name the userset's object under any relation, for tuple-to-userset rewrites
        that ignore the relation stored in them. */
    method ProcessTupleEdges(subject: User) returns (r: Result<bool, EvaluationError>)
      requires Valid() && Sound() && !Full() && subject in visited
      modifies this`frontier, this`visited, this`seen, this`resources, context, context.checks, context.expands
      ensures Valid() && Sound()
      ensures r.Ok? ==> r.value == Full() && Ahead() <= old(Ahead())
      ensures r.Ok? && Exact() ==> TupleStep(walk, old(State()), subject) == Ok(State())
    {
      hide WalkSpace, Justified, LookupProducerPlan, Member, TupleTargets, RelationNames, Live, TupleRowsStep;
      if subject.UserId? {
        return Ok(false);
      }
      var entity := subject.entity;
      if !ValidTypeName(entity.namespace) || !ValidTypeName(subject.relation) {
        return Err(InvalidIdentifier);
      }
      var schema := walk.snapshot.schema;
      var targets :- TupleTargets(schema, schema.definitions, entity.namespace, subject.relation);
      TupleEdgesAreNamed(schema, schema.definitions, entity.namespace, subject.relation);
      if !ValidId(entity.id) {
        return Err(InvalidIdentifier);
      }
      var broad := walk.BroadTargets(targets, entity);
      SelectMembers(targets, (t: TupleTarget) => walk.Broad(t, entity));
      if broad == [] {
        return Ok(false);
      }
      r := FollowRows(SubjectFilter(entity.namespace, Some(entity.id), None), broad);
    }

    method FollowRows(filter: SubjectFilter, targets: seq<TupleTarget>) returns (r: Result<bool, EvaluationError>)
      requires Valid() && Sound() && !Full()
      requires forall t :: t in targets ==> t.target in RelationNames(walk.snapshot.schema.definitions)
      modifies this`frontier, this`visited, this`seen, this`resources, context, context.checks, context.expands
      ensures Valid() && Sound()
      ensures r.Ok? ==> r.value == Full() && Ahead() <= old(Ahead()) && old(visited) <= visited
      ensures r.Ok? && Exact() ==> TupleRowsStep(walk, old(State()), ReverseQuery(walk.snapshot.rows, filter), targets) == Ok(State())
    {
      hide WalkSpace, Justified, LookupProducerPlan, Member, RelationNames, Live, TargetsStep;
      var rows := ReverseQuery(walk.snapshot.rows, filter);
      QueryIsLive(walk.snapshot.rows, (row: Relationship) => MatchesSubject(row.subject, filter));
      ghost var following := TupleRowsStep(walk, State(), rows, targets);
      for i := 0 to |rows|
        invariant Valid() && Sound() && !Full() && Ahead() <= old(Ahead()) && old(visited) <= visited
        invariant Exact() ==> following == TupleRowsStep(walk, State(), rows[i..], targets)
      {
        assert rows[i..][1..] == rows[i + 1..];
        var full :- FollowTargets(rows[i], targets);
        if full {
          return Ok(true);
        }
      }
      r := Ok(false);
    }

    method FollowTargets(row: Relationship, targets: seq<TupleTarget>) returns (r: Result<bool, EvaluationError>)
      requires Valid() && Sound() && !Full() && Live(walk.snapshot.rows, row)
      requires forall t :: t in targets ==> t.target in RelationNames(walk.snapshot.schema.definitions)
      modifies this`frontier, this`visited, this`seen, this`resources, context, context.checks, context.expands
      ensures Valid() && Sound()
      ensures r.Ok? ==> r.value == Full() && Ahead() <= old(Ahead()) && old(visited) <= visited
      ensures r.Ok? && Exact() ==> TargetsStep(walk, old(State()), row, targets) == Ok(State())
    {
      hide WalkSpace, Justified, LookupProducerPlan, Member, RelationNames, Live, TargetStep;
      ghost var following := TargetsStep(walk, State(), row, targets);
      for i := 0 to |targets|
        invariant Valid() && Sound() && !Full() && Ahead() <= old(Ahead()) && old(visited) <= visited
        invariant Exact() ==> following == TargetsStep(walk, State(), row, targets[i..])
      {
        assert targets[i..][1..] == targets[i + 1..];
        var full :- FollowTarget(row, targets[i]);
        if full {
          return Ok(true);
        }
      }
      r := Ok(false);
    }

    method FollowTarget(row: Relationship, t: TupleTarget) returns (r: Result<bool, EvaluationError>)
      requires Valid() && Sound() && !Full() && Live(walk.snapshot.rows, row)
      requires t.target in RelationNames(walk.snapshot.schema.definitions)
      modifies this`frontier, this`visited, this`seen, this`resources, context, context.checks, context.expands
      ensures Valid() && Sound()
      ensures r.Ok? ==> r.value == Full() && Ahead() <= old(Ahead()) && old(visited) <= visited
      ensures r.Ok? && Exact() ==> TargetStep(walk, old(State()), row, t) == Ok(State())
    {
      hide WalkSpace, Justified, LookupProducerPlan, Member, RelationNames, Live, Considered, Enqueued;
      if row.resource.namespace != t.resourceType || row.relation != t.tupleset {
        return Ok(false);
      }
      if walk.OfRequestedType(row.resource) {
        var full :- Consider(row.resource, FullRoot);
        if full {
          return Ok(true);
        }
      }
      var next := Userset(row.resource, t.target);
      if !ValidUser(next) {
        return Err(InvalidIdentifier);
      }
      if walk.posted(FilterOf(next)) {
        TargetStaysInSpace(walk.snapshot, walk.request.subject, row, t.target);
        Enqueue(next, INEXACT);
      }
      r := Ok(false);
    }

    method WalkRows(entry: FrontierEntry) returns (r: Result<bool, EvaluationError>)
      requires Valid() && Sound() && !Full() && EntryValid(entry)
      modifies this, context, context.checks, context.expands
      ensures Valid() && Sound()
      ensures r.Ok? ==> r.value == Full() && Ahead() <= old(Ahead()) && old(visited) <= visited
      ensures r.Ok? && Exact() ==> NamedRowsStep(walk, old(State()), entry) == Ok(State())
    {
      hide WalkSpace, Justified, LookupProducerPlan, Member, Live, MatchesSubject, RowStep;
      hide ResourceLookup.Valid, ResourceLookup.Sound, ResourceLookup.Ahead, ValidUser;
      if !ValidUser(entry.subject) {
        return Err(InvalidIdentifier);
      }
      var filter := FilterOf(entry.subject);
      var rows := ReverseQuery(walk.snapshot.rows, filter);
      QueryIsLive(walk.snapshot.rows, (row: Relationship) => MatchesSubject(row.subject, filter));
      ghost var following := RowsStep(walk, State(), rows, entry);
      for i := 0 to |rows|
        invariant Valid() && Sound() && !Full() && EntryValid(entry) && Ahead() <= old(Ahead()) && old(visited) <= visited
        invariant Exact() ==> following == RowsStep(walk, State(), rows[i..], entry)
      {
        assert rows[i] in rows && rows[i..][1..] == rows[i + 1..];
        var full :- ProcessRow(rows[i], entry);
        if full {
          return Ok(true);
        }
      }
      r := Ok(false);
    }

    /** Walks one frontier subject. */
    method WalkOne() returns (r: Result<(), EvaluationError>)
      requires Valid() && Sound() && !Full() && frontier != []
      modifies this, context, context.checks, context.expands
      ensures Valid() && Sound()
      ensures r.Ok? && !Full() ==> Ahead() < old(Ahead())
      ensures r.Ok? && Exact() ==> Step(walk, old(State())) == Ok(State())
    {
      hide WalkSpace, Justified, LookupProducerPlan, Member, ExpandStep, NamedRowsStep, TupleStep;
      var entry := frontier[0];
      frontier := frontier[1..];
      var _ :- ExpandSameObject(entry.subject);
      var full :- WalkRows(entry);
      if !full {
        full :- ProcessTupleEdges(entry.subject);
      }
      r := Ok(());
    }

    /** Walks the frontier until it is empty or the result is full; every subject is walked once, so the
        walk ends on cyclic data too. Where verifications answer the truth, it is the specified walk. */
    method Walk() returns (r: Result<(), EvaluationError>)
      requires Valid() && Sound() && !Full() && State() == Start(walk)
      modifies this, context, context.checks, context.expands
      ensures Valid() && Sound()
      ensures r.Ok? && Exact() ==> Yields(walk, resources)
    {
      hide WalkSpace, Justified, LookupProducerPlan, Member, Start, Step;
      ghost var steps := 0;
      while frontier != [] && !Full()
        invariant Valid() && Sound()
        invariant Exact() ==> After(walk, steps) == Ok(State())
        decreases if Full() then 0 else Ahead() + 1
      {
        var _ :- WalkOne();
        steps := steps + 1;
      }
      assert Exact() ==> FinishedAfter(walk, steps);
      r := Ok(());
    }
  }

  /** The resources of a type on which a subject holds a permission. Whatever the data, the lookup ends,
      and the answer has no duplicates, respects the cap and stays within the type. On exclusion-free
      schemas, cycles included, and on acyclic data with exclusion, everything returned is a member,
      whether it was proven from its row, checked through residuals, or checked in full. On acyclic data
      the answer is the one of the specified walk, and where the conditions of coverage hold an answer
      below the cap holds exactly the members. Where no row can be pruned and no rule is contested, such an
      answer misses exactly the members the rows and edges it may follow do not lead to. */
  method Lookup(snapshot: Snapshot, request: LookupRequest, limits: EvaluationLimits, posted: SubjectFilter -> bool)
    returns (r: Result<seq<Object>, EvaluationError>)
    requires limits.maxLookupResults > 0
    ensures r.Ok? ==> Distinct(r.value) && |r.value| <= limits.maxLookupResults
    ensures r.Ok? ==> forall o :: o in r.value ==> o.namespace == request.resourceType
    ensures r.Ok? && Trustworthy(snapshot, request.subject) ==>
      forall o :: o in r.value ==> Member(snapshot, request.subject)(Node(o, request.permission))
    ensures r.Ok? && Decidable(snapshot, request.subject) ==> Yields(WalkOf(snapshot, request, limits, posted), r.value)
    ensures r.Ok? && Decidable(snapshot, request.subject) && Exhaustive(WalkOf(snapshot, request, limits, posted))
            && |r.value| < limits.maxLookupResults ==>
      forall o :: o in r.value <==> o.namespace == request.resourceType && Member(snapshot, request.subject)(Node(o, request.permission))
    ensures r.Ok? && Decidable(snapshot, request.subject) && Unhindered(WalkOf(snapshot, request, limits, posted))
            && |r.value| < limits.maxLookupResults ==>
      forall o :: Member(snapshot, request.subject)(Node(o, request.permission)) ==>
        (o in r.value <==> Reachable(WalkOf(snapshot, request, limits, posted), o))
  {
    hide Member, Trustworthy, LookupProducerPlan, Decidable, Yields, Exhaustive, Unhindered, Reachable;
    if !ValidTypeName(request.resourceType) || !ValidTypeName(request.permission) {
      return Err(InvalidIdentifier);
    }
    var found := snapshot.schema.resolver.Relation(request.resourceType, request.permission);
    if found.Err? {
      return Err(SchemaFailure(found.error));
    }
    var plan :- LookupProducerPlan(snapshot.schema, request.resourceType, request.permission);
    var lookup := new ResourceLookup(Walk(snapshot, limits, request, posted, plan));
    var _ :- lookup.Walk();
    r := Ok(lookup.resources);
    if Decidable(snapshot, request.subject) {
      DecidableIsComplete(WalkOf(snapshot, request, limits, posted), r.value);
    }
  }

  lemma DecidableIsComplete(w: Walk, resources: seq<Object>)
    requires Decidable(w.snapshot, w.request.subject) && Planned(w) && Yields(w, resources)
    ensures Exhaustive(w) && |resources| < w.limits.maxLookupResults ==>
              forall o :: w.OfRequestedType(o) && w.Holds(o) ==> o in resources
    ensures Unhindered(w) && |resources| < w.limits.maxLookupResults ==>
              forall o :: w.Holds(o) ==> (o in resources <==> Reachable(w, o))
  {
    hide Exhaustive, Planned, Yields, Member, WellFormed, DirectExact, Acyclic, Reachable, Unpruned, Uncontested;
    assert Regular(w.snapshot);
    if Exhaustive(w) && |resources| < w.limits.maxLookupResults {
      forall o | w.OfRequestedType(o) && w.Holds(o) ensures o in resources {
        FinishedWalkIsComplete(w, resources, o);
      }
    }
    if Unhindered(w) && |resources| < w.limits.maxLookupResults {
      forall o | w.Holds(o) ensures o in resources <==> Reachable(w, o) {
        MembersAreReturnedIfReachable(w, resources, o);
      }
    }
  }
}
