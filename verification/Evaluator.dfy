/** The evaluation context: one mutable set of stacks, frames and remembered results over one
    immutable snapshot. */
module Evaluator {
  import opened Vocabulary
  import opened Domain
  import opened Schema
  import opened Semantics
  import opened MembershipAlgebra
  import opened CheckSpec
  import opened CheckMemo
  import opened MemoSpec
  import opened MemoCorrect
  import opened ActiveStack

  datatype CheckFrame = CheckFrame(entryRemainingDepth: nat, minimumRemainingDepth: nat)

  /** The innermost frame keeps the least depth recorded while it was open. */
  function Lowered(frames: seq<CheckFrame>, low: Option<nat>): seq<CheckFrame> {
    if frames == [] || low.None? then frames
    else
      var top := frames[|frames| - 1];
      frames[|frames| - 1 := top.(minimumRemainingDepth := Lower(top.minimumRemainingDepth, low.value))]
  }

  lemma LoweredTwice(frames: seq<CheckFrame>, first: Option<nat>, second: Option<nat>)
    ensures Lowered(Lowered(frames, first), second) == Lowered(frames, Lowest(first, second))
  {
  }

  /** Entering records the depth left in the frame around, and opens one of its own. */
  function Entered(frames: seq<CheckFrame>, depth: nat, opens: bool): seq<CheckFrame>
    requires depth > 0
  {
    Lowered(frames, Some(depth - 1)) + if opens then [CheckFrame(depth, depth - 1)] else []
  }

  /** Leaving closes the frame and records what it recorded in the one around. */
  function Left(frames: seq<CheckFrame>, closes: bool): seq<CheckFrame>
    requires closes ==> frames != []
  {
    if closes then Lowered(frames[..|frames| - 1], Some(frames[|frames| - 1].minimumRemainingDepth)) else frames
  }

  function Required(frame: CheckFrame): nat {
    if frame.entryRemainingDepth > frame.minimumRemainingDepth then frame.entryRemainingDepth - frame.minimumRemainingDepth else 1
  }

  lemma NothingRecorded(frames: seq<CheckFrame>)
    ensures frames == Lowered(frames, None)
  {
  }

  /** A key that was entered and left lowers the frame around it to the least depth inside, and its own
      frame has measured how much depth it needed. */
  lemma LeavesWhatWasEntered(frames: seq<CheckFrame>, depth: nat, opens: bool, inner: Option<nat>)
    requires depth > 0 && (inner.Some? ==> inner.value < depth)
    ensures var low := Lowest(Some(depth - 1), inner);
            var evaluated := Lowered(Entered(frames, depth, opens), inner);
            && (opens ==> evaluated != [] && Required(evaluated[|evaluated| - 1]) == depth - low.value)
            && Left(evaluated, opens) == Lowered(frames, low)
  {
    var low := Lowest(Some(depth - 1), inner);
    var entered := Entered(frames, depth, opens);
    var around := Lowered(frames, Some(depth - 1));
    if opens {
      var evaluated := Lowered(entered, inner);
      assert |evaluated| == |around| + 1 && evaluated[..|around|] == around;
      assert evaluated[|around|] == CheckFrame(depth, low.value);
    }
    LoweredTwice(frames, Some(depth - 1), if opens then low else inner);
  }

  class EvaluationContext {
    const snapshot: Snapshot
    const limits: EvaluationLimits
    const checks: ActiveStack<CheckKey>
    const expands: ActiveStack<Node>
    var remainingDepth: nat
    var frames: seq<CheckFrame>
    var memo: Option<RequestCheckMemo>
    /** Depth the last completed key turned out to need. */
    var lastDepthRequired: nat

    /** Depth is spent by exactly the keys that are active. */
    ghost predicate Valid()
      reads this, checks, expands
    {
      && (checks as object) != expands
      && checks.Valid() && expands.Valid()
      && remainingDepth + |checks.stack| + |expands.stack| == limits.maxDepth
    }

    constructor (snapshot: Snapshot, limits: EvaluationLimits)
      ensures Valid() && this.snapshot == snapshot && this.limits == limits
      ensures checks.stack == [] && expands.stack == [] && memo.None?
      ensures fresh(checks) && fresh(expands)
    {
      this.snapshot, this.limits := snapshot, limits;
      checks := new ActiveStack<CheckKey>();
      expands := new ActiveStack<Node>();
      remainingDepth, frames, memo, lastDepthRequired := limits.maxDepth, [], None, 1;
    }

    constructor WithRequestMemo(snapshot: Snapshot, limits: EvaluationLimits)
      ensures Valid() && this.snapshot == snapshot && this.limits == limits
      ensures checks.stack == [] && expands.stack == []
      ensures memo == Some(RequestCheckMemo(map[], MemoCapacity(limits))) && forall exact :: memo.value.Sound(snapshot, exact)
      ensures fresh(checks) && fresh(expands)
    {
      this.snapshot, this.limits := snapshot, limits;
      checks := new ActiveStack<CheckKey>();
      expands := new ActiveStack<Node>();
      remainingDepth, frames, lastDepthRequired := limits.maxDepth, [], 1;
      memo := Some(RequestCheckMemo(map[], MemoCapacity(limits)));
    }

    method ResetForReuse()
      requires Valid()
      modifies this, checks, expands
      ensures Valid() && checks.stack == [] && expands.stack == [] && memo == old(memo)
    {
      remainingDepth := limits.maxDepth;
      checks.Reset();
      expands.Reset();
      frames := [];
    }

    /** Stacks and depth are as they were. */
    twostate predicate Restored()
      reads this, checks, expands
    {
      && Valid()
      && checks.stack == old(checks.stack)
      && remainingDepth == old(remainingDepth)
    }

    /** The evaluation is the specified one: it answers, remembers and records what `m` says. */
    twostate predicate Follows(m: Memoised, new r: Outcome)
      reads this, checks, expands
    {
      Restored() && r == m.outcome && memo == m.memo && frames == Lowered(old(frames), m.low)
    }

    function Q(user: User): Request { Request(snapshot, limits, user) }

    method RecordFrameDepth(depth: nat)
      modifies this`frames
      ensures frames == Lowered(old(frames), Some(depth))
    {
      if frames != [] {
        var top := frames[|frames| - 1];
        frames := frames[|frames| - 1 := top.(minimumRemainingDepth := Lower(top.minimumRemainingDepth, depth))];
      }
    }

    /** Depth a completed frame needed: at least one level. */
    method PopFrame() returns (depthRequired: nat)
      requires frames != []
      modifies this`frames
      ensures var top := old(frames)[|old(frames)| - 1];
              && frames == Lowered(old(frames)[..|old(frames)| - 1], Some(top.minimumRemainingDepth))
              && depthRequired == if top.entryRemainingDepth > top.minimumRemainingDepth
                                  then top.entryRemainingDepth - top.minimumRemainingDepth else 1
    {
      var top := frames[|frames| - 1];
      frames := frames[..|frames| - 1];
      RecordFrameDepth(top.minimumRemainingDepth);
      depthRequired := if top.entryRemainingDepth > top.minimumRemainingDepth
        then top.entryRemainingDepth - top.minimumRemainingDepth else 1;
    }

    method EvaluateCheckKey(user: User, key: CheckKey, body: Body) returns (r: Outcome)
      requires Valid()
      modifies this, checks
      ensures Follows(KeyMemo(Q(user), old(remainingDepth), old(checks.stack), old(memo), key, body), r)
      decreases remainingDepth, 0, 1
    {
      hide RequestCheckMemo.Insert, RequestCheckMemo.Get, BodyMemo;
      if checks.IsActive(key) {
        return Ok(Denied);
      }
      var memoEligible := memo.Some? && checks.stack != [];
      if memoEligible {
        var found := memo.value.Get(MemoKeyOf(key), remainingDepth);
        if found.Hit? {
          return Ok(found.membership);
        }
      }
      if remainingDepth == 0 {
        return Err(DepthExceeded(key));
      }
      r := EnterCheckKey(user, key, body, memoEligible);
      if memoEligible && r.Ok? && r.value.IsMemoCacheable() {
        memo := Some(memo.value.Insert(MemoKeyOf(key), r.value, lastDepthRequired));
      }
    }

    /** Spends one level of depth on `key` and evaluates its body. */
    method EnterCheckKey(user: User, key: CheckKey, body: Body, memoEligible: bool) returns (r: Outcome)
      requires Valid() && key !in checks.stack && remainingDepth > 0
      modifies this, checks
      ensures var inner := BodyMemo(Q(user), old(remainingDepth) - 1, old(checks.stack) + [key], old(memo), key, body);
              var low := Lowest(Some(old(remainingDepth) - 1), inner.low);
              && Follows(inner.(low := low), r)
              && (memoEligible ==> lastDepthRequired == old(remainingDepth) - low.value)
      decreases remainingDepth, 0, 0
    {
      hide BodyMemo, Lowered;
      Enter(key, memoEligible);
      r := EvaluateBody(user, key, body);
      ghost var inner := BodyMemo(Q(user), old(remainingDepth) - 1, old(checks.stack) + [key], old(memo), key, body);
      LeavesWhatWasEntered(old(frames), old(remainingDepth), memoEligible, inner.low);
      Leave(memoEligible);
    }

    method Enter(key: CheckKey, memoEligible: bool)
      requires Valid() && key !in checks.stack && remainingDepth > 0
      modifies this`remainingDepth, this`frames, checks
      ensures Valid() && checks.stack == old(checks.stack) + [key]
      ensures remainingDepth == old(remainingDepth) - 1
      ensures frames == Entered(old(frames), old(remainingDepth), memoEligible)
    {
      var entryRemainingDepth := remainingDepth;
      remainingDepth := remainingDepth - 1;
      RecordFrameDepth(remainingDepth);
      if memoEligible {
        frames := frames + [CheckFrame(entryRemainingDepth, remainingDepth)];
      }
      checks.Push(key);
    }

    method Leave(memoEligible: bool)
      requires Valid() && checks.stack != []
      requires memoEligible ==> frames != []
      modifies this`remainingDepth, this`frames, this`lastDepthRequired, checks
      ensures Valid() && checks.stack == old(checks.stack)[..|old(checks.stack)| - 1]
      ensures remainingDepth == old(remainingDepth) + 1
      ensures frames == Left(old(frames), memoEligible)
      ensures memoEligible ==> lastDepthRequired == Required(old(frames)[|old(frames)| - 1])
    {
      checks.Pop();
      lastDepthRequired := 1;
      if memoEligible {
        lastDepthRequired := PopFrame();
      }
      remainingDepth := remainingDepth + 1;
    }

    method EvaluateBody(user: User, key: CheckKey, body: Body) returns (r: Outcome)
      requires Valid()
      modifies this, checks
      ensures Follows(BodyMemo(Q(user), old(remainingDepth), old(checks.stack), old(memo), key, body), r)
      decreases remainingDepth, 5
    {
      hide DefinitionMemo, ThisMemo, ResidualsMemo;
      match body
      case ByName =>
        if !ValidTypeName(key.entity.namespace) || !ValidTypeName(key.relation) {
          return Err(InvalidIdentifier);
        }
        var found := snapshot.schema.resolver.Relation(key.entity.namespace, key.relation);
        if found.Err? {
          return Err(SchemaFailure(found.error));
        }
        r := EvaluateDefinition(user, key.entity, key.relation, found.value);
      case ById(id) =>
        var found := snapshot.schema.resolver.ById(id);
        if found.None? {
          return Err(UnresolvedRelationId);
        }
        r := EvaluateDefinition(user, key.entity, key.relation, found.value);
      case RowsOnly =>
        r := EvaluateThis(user, key.entity, key.relation);
      case Prepared(definition) =>
        r := EvaluateDefinition(user, key.entity, definition.name, definition);
      case Residuals(residuals) =>
        r := VerifyResiduals(user, key.entity, residuals);
    }

    method EvaluateDefinition(user: User, entity: Object, relation: string, definition: RelationDefinition) returns (r: Outcome)
      requires Valid()
      modifies this, checks
      ensures Follows(DefinitionMemo(Q(user), old(remainingDepth), old(checks.stack), old(memo), entity, relation, definition), r)
      decreases remainingDepth, 4, 0
    {
      hide ExprMemo, ThisMemo;
      match definition.compiledRewrite
      case Some(e) => r := EvaluateExpression(user, entity, relation, e);
      case None => r := EvaluateThis(user, entity, relation);
    }

    method VerifyResiduals(user: User, entity: Object, residuals: seq<ResidualCheck>) returns (r: Outcome)
      requires Valid()
      modifies this, checks
      ensures Follows(ResidualsMemo(Q(user), old(remainingDepth), old(checks.stack), old(memo), entity, residuals), r)
      decreases remainingDepth, 4, |residuals|
    {
      hide ExprMemo, Lowered;
      ghost var depth, stack := remainingDepth, checks.stack;
      ghost var spec := ResidualsMemo(Q(user), depth, stack, memo, entity, residuals);
      ghost var low: Option<nat> := None;
      NothingRecorded(frames);
      for i := 0 to |residuals|
        invariant Restored() && frames == Lowered(old(frames), low)
        invariant spec == ResidualsMemo(Q(user), depth, stack, memo, entity, residuals[i..]).Below(low)
      {
        assert residuals[i..][1..] == residuals[i + 1..];
        ghost var first := ExprMemo(Q(user), depth, stack, memo, entity, residuals[i].relationContext, residuals[i].expression);
        var result := EvaluateExpression(user, entity, residuals[i].relationContext, residuals[i].expression);
        LoweredTwice(old(frames), low, first.low);
        low := Lowest(low, first.low);
        if result.Err? {
          return result;
        }
        if residuals[i].expected == ExpectAllowed && result.value != Allowed {
          return Ok(Denied);
        }
        if residuals[i].expected == ExpectDenied && result.value == Allowed {
          return Ok(Denied);
        }
      }
      r := Ok(Allowed);
    }

    method EvaluateExpression(user: User, entity: Object, relation: string, e: CompiledExpression) returns (r: Outcome)
      requires Valid()
      modifies this, checks
      ensures Follows(ExprMemo(Q(user), old(remainingDepth), old(checks.stack), old(memo), entity, relation, e), r)
      decreases remainingDepth, 3, e, 2
    {
      hide ThisMemo, ComputedMemo, TupleMemo, UnionMemo, IntersectionMemo, ExcludeFirstMemo, BaseFirstMemo;
      match e
      case This =>
        r := EvaluateThis(user, entity, relation);
      case ComputedUserset(target, id, targetHasRewrite) =>
        r := EvaluateComputed(user, entity, target, id, targetHasRewrite);
      case TupleToUserset(_, id, computed) =>
        var found := snapshot.schema.resolver.ById(id);
        if found.None? {
          return Err(UnresolvedRelationId);
        }
        r := EvaluateTuple(user, entity, found.value.name, computed);
      case Union(children) =>
        r := EvaluateUnion(user, entity, relation, children);
      case Intersection(children) =>
        r := EvaluateIntersection(user, entity, relation, children);
      case Exclusion(base, exclude) =>
        if EvaluatesExcludeFirst(exclude) {
          r := EvaluateExcludeFirst(user, entity, relation, base, exclude);
        } else {
          r := EvaluateBaseFirst(user, entity, relation, base, exclude);
        }
    }

    method EvaluateComputed(user: User, entity: Object, target: string, id: RelationId, targetHasRewrite: bool) returns (r: Outcome)
      requires Valid()
      modifies this, checks
      ensures Follows(ComputedMemo(Q(user), old(remainingDepth), old(checks.stack), old(memo), entity, target, id, targetHasRewrite), r)
      decreases remainingDepth, 1, 0
    {
      hide KeyMemo;
      r := EvaluateCheckKey(user, NestedKey(snapshot, entity, target, user), if targetHasRewrite then ById(id) else RowsOnly);
    }

    method EvaluateUnion(user: User, entity: Object, relation: string, children: seq<CompiledExpression>) returns (r: Outcome)
      requires Valid()
      modifies this, checks
      ensures Follows(UnionMemo(Q(user), old(remainingDepth), old(checks.stack), old(memo), entity, relation, children, Denied), r)
      decreases remainingDepth, 3, children, 0
    {
      hide ExprMemo, Lowered;
      ghost var depth, stack := remainingDepth, checks.stack;
      ghost var spec := UnionMemo(Q(user), depth, stack, memo, entity, relation, children, Denied);
      ghost var low: Option<nat> := None;
      NothingRecorded(frames);
      var result := Denied;
      for i := 0 to |children|
        invariant Restored() && frames == Lowered(old(frames), low)
        invariant spec == UnionMemo(Q(user), depth, stack, memo, entity, relation, children[i..], result).Below(low)
      {
        assert children[i..][1..] == children[i + 1..];
        ghost var first := ExprMemo(Q(user), depth, stack, memo, entity, relation, children[i]);
        var child := EvaluateExpression(user, entity, relation, children[i]);
        LoweredTwice(old(frames), low, first.low);
        low := Lowest(low, first.low);
        if child.Err? {
          return child;
        }
        result := result.Combine(child.value);
        if result == Allowed {
          return Ok(Allowed);
        }
      }
      r := Ok(result);
    }

    method EvaluateIntersection(user: User, entity: Object, relation: string, children: seq<CompiledExpression>) returns (r: Outcome)
      requires Valid()
      modifies this, checks
      ensures Follows(IntersectionMemo(Q(user), old(remainingDepth), old(checks.stack), old(memo), entity, relation, children, Allowed), r)
      decreases remainingDepth, 3, children, 0
    {
      hide ExprMemo, Lowered;
      ghost var depth, stack := remainingDepth, checks.stack;
      ghost var spec := IntersectionMemo(Q(user), depth, stack, memo, entity, relation, children, Allowed);
      ghost var low: Option<nat> := None;
      NothingRecorded(frames);
      var result := Allowed;
      for i := 0 to |children|
        invariant Restored() && frames == Lowered(old(frames), low)
        invariant spec == IntersectionMemo(Q(user), depth, stack, memo, entity, relation, children[i..], result).Below(low)
      {
        assert children[i..][1..] == children[i + 1..];
        ghost var first := ExprMemo(Q(user), depth, stack, memo, entity, relation, children[i]);
        var child := EvaluateExpression(user, entity, relation, children[i]);
        LoweredTwice(old(frames), low, first.low);
        low := Lowest(low, first.low);
        if child.Err? {
          return child;
        }
        result := result.Meet(child.value);
        if result == Denied {
          return Ok(Denied);
        }
      }
      r := Ok(result);
    }

    /** Where the excluded part is cheap to test, it is tested first. */
    method EvaluateExcludeFirst(user: User, entity: Object, relation: string, base: CompiledExpression, exclude: CompiledExpression) returns (r: Outcome)
      requires Valid()
      modifies this, checks
      ensures Follows(ExcludeFirstMemo(Q(user), old(remainingDepth), old(checks.stack), old(memo), entity, relation, base, exclude), r)
      decreases remainingDepth, 3, Exclusion(base, exclude), 0
    {
      hide ExprMemo, Lowered;
      ghost var first := ExprMemo(Q(user), remainingDepth, checks.stack, memo, entity, relation, exclude);
      r := EvaluateExpression(user, entity, relation, exclude);
      if r.Err? {
        return;
      }
      if r.value == Allowed {
        return Ok(Denied);
      }
      var excluded := r.value;
      ghost var second := ExprMemo(Q(user), remainingDepth, checks.stack, memo, entity, relation, base);
      r := EvaluateExpression(user, entity, relation, base);
      LoweredTwice(old(frames), first.low, second.low);
      if r.Ok? {
        r := Ok(r.value.Without(excluded));
      }
    }

    method EvaluateBaseFirst(user: User, entity: Object, relation: string, base: CompiledExpression, exclude: CompiledExpression) returns (r: Outcome)
      requires Valid()
      modifies this, checks
      ensures Follows(BaseFirstMemo(Q(user), old(remainingDepth), old(checks.stack), old(memo), entity, relation, base, exclude), r)
      decreases remainingDepth, 3, Exclusion(base, exclude), 0
    {
      hide ExprMemo, Lowered;
      ghost var first := ExprMemo(Q(user), remainingDepth, checks.stack, memo, entity, relation, base);
      r := EvaluateExpression(user, entity, relation, base);
      if r.Err? || r.value == Denied {
        return;
      }
      var included := r.value;
      ghost var second := ExprMemo(Q(user), remainingDepth, checks.stack, memo, entity, relation, exclude);
      r := EvaluateExpression(user, entity, relation, exclude);
      LoweredTwice(old(frames), first.low, second.low);
      if r.Ok? {
        r := Ok(included.Without(r.value));
      }
    }

    method EvaluateThis(user: User, entity: Object, relation: string) returns (r: Outcome)
      requires Valid()
      modifies this, checks
      ensures Follows(ThisMemo(Q(user), old(remainingDepth), old(checks.stack), old(memo), entity, relation), r)
      decreases remainingDepth, 2
    {
      hide ScanMemo;
      if !ValidObject(entity) || !ValidUser(user) {
        return Err(InvalidIdentifier);
      }
      if AnyResourceRelationSubject(snapshot.rows, entity, relation, FilterOf(user)) {
        return Ok(Allowed);
      }
      var rows := ResourceRelation(snapshot.rows, entity, relation, Unbounded);
      r := ScanUsersets(user, rows, None);
    }

    method EvaluateTuple(user: User, entity: Object, tupleset: string, computed: string) returns (r: Outcome)
      requires Valid()
      modifies this, checks
      ensures Follows(TupleMemo(Q(user), old(remainingDepth), old(checks.stack), old(memo), entity, tupleset, computed), r)
      decreases remainingDepth, 2
    {
      hide ScanMemo;
      if !ValidObject(entity) {
        return Err(InvalidIdentifier);
      }
      var rows := ResourceRelation(snapshot.rows, entity, tupleset, Unbounded);
      r := ScanUsersets(user, rows, Some(computed));
    }

    /** The row loop `this` and tuple-to-userset share: check each userset row in turn, within the
        fanout limit, until one allows. */
    method ScanUsersets(user: User, rows: seq<Relationship>, computed: Option<string>) returns (r: Outcome)
      requires Valid()
      modifies this, checks
      ensures Follows(ScanMemo(Q(user), old(remainingDepth), old(checks.stack), old(memo), rows, computed, 0), r)
      decreases remainingDepth, 1, 1
    {
      hide KeyMemo, Lowered;
      ghost var depth, stack := remainingDepth, checks.stack;
      ghost var spec := ScanMemo(Q(user), depth, stack, memo, rows, computed, 0);
      ghost var low: Option<nat> := None;
      NothingRecorded(frames);
      var fanout := 0;
      for i := 0 to |rows|
        invariant Restored() && frames == Lowered(old(frames), low)
        invariant spec == ScanMemo(Q(user), depth, stack, memo, rows[i..], computed, fanout).Below(low)
      {
        assert rows[i..][1..] == rows[i + 1..];
        var subject := rows[i].subject;
        if subject.UsersetSubject? {
          fanout := fanout + 1;
          if fanout > limits.maxFanoutPerStep {
            return Err(FanoutExceeded(limits.maxFanoutPerStep));
          }
          var target := ScanTarget(subject, computed);
          var key := NestedKey(snapshot, target.entity, target.relation, user);
          ghost var first := KeyMemo(Q(user), depth, stack, memo, key, ByName);
          var result := EvaluateCheckKey(user, key, ByName);
          LoweredTwice(old(frames), low, first.low);
          low := Lowest(low, first.low);
          if result.Err? {
            return result;
          }
          if result.value == Allowed {
            return Ok(Allowed);
          }
        }
      }
      r := Ok(Denied);
    }

    /** Spends one level of depth on expanding `node`. */
    method EnterExpand(node: Node)
      requires Valid() && node !in expands.stack && remainingDepth > 0
      modifies this`remainingDepth, this`frames, expands
      ensures Valid() && expands.stack == old(expands.stack) + [node]
      ensures remainingDepth == old(remainingDepth) - 1
    {
      remainingDepth := remainingDepth - 1;
      RecordFrameDepth(remainingDepth);
      expands.Push(node);
    }

    method LeaveExpand()
      requires Valid() && expands.stack != []
      modifies this`remainingDepth, expands
      ensures Valid() && expands.stack == old(expands.stack)[..|old(expands.stack)| - 1]
      ensures remainingDepth == old(remainingDepth) + 1
    {
      expands.Pop();
      remainingDepth := remainingDepth + 1;
    }

    /** No key is active, so the whole depth is available. */
    ghost predicate Idle()
      reads this, checks, expands
    {
      Valid() && checks.stack == [] && expands.stack == []
    }

    /** A check request, as specified for whatever is remembered. Without a memo it is the memo-free
        evaluation; with one that may be relied on it answers membership, and answers whenever the
        memo-free evaluation does. */
    method Check(entity: Object, relation: string, user: User, ghost trust: Trust) returns (r: Outcome)
      requires Idle() && MemoReady(snapshot, user, memo, trust)
      modifies this, checks
      ensures Restored() && Idle() && MemoReady(snapshot, user, memo, trust) && memo.Some? == old(memo.Some?)
      ensures var m := RootMemo(Q(user), old(memo), entity, relation); r == m.outcome && memo == m.memo
      ensures Reliable(old(memo), trust) ==> Tracks(memo.Some?, RootSpec(Q(user), entity, relation), r)
      ensures Relied(old(memo), trust) ==> Reads(trust, r, Member(snapshot, user)(Node(entity, relation)))
    {
      hide Member, Justified, KeyMemo, CheckKeySpec;
      var key := RootKey(snapshot, entity, relation, user);
      KeyIsRight(Q(user), limits.maxDepth, [], memo, trust, key, ByName);
      r := EvaluateCheckKey(user, key, ByName);
    }

    /** A check whose relation definition the caller has already looked up. */
    method CheckPrepared(entity: Object, relation: string, user: User, definition: RelationDefinition, ghost trust: Trust) returns (r: Outcome)
      requires Idle() && MemoReady(snapshot, user, memo, trust)
      requires snapshot.schema.resolver.Relation(entity.namespace, relation) == Ok(definition)
      modifies this, checks
      ensures Restored() && Idle() && MemoReady(snapshot, user, memo, trust) && memo.Some? == old(memo.Some?)
      ensures var m := KeyMemo(Q(user), limits.maxDepth, [], old(memo), RootKey(snapshot, entity, relation, user), Prepared(definition));
              r == m.outcome && memo == m.memo
      ensures Reliable(old(memo), trust) ==>
        Tracks(memo.Some?, CheckKeySpec(Q(user), limits.maxDepth, [], RootKey(snapshot, entity, relation, user), Prepared(definition)), r)
      ensures Relied(old(memo), trust) ==> Reads(trust, r, Member(snapshot, user)(Node(entity, relation)))
    {
      hide Member, Justified, KeyMemo, CheckKeySpec;
      var key := RootKey(snapshot, entity, relation, user);
      KeyIsRight(Q(user), limits.maxDepth, [], memo, trust, key, Prepared(definition));
      r := EvaluateCheckKey(user, key, Prepared(definition));
    }

    /** Evaluates the guards left over by the lookup planner under the root key; the result is never
        remembered, because the root key is. */
    method VerifyLookupResiduals(entity: Object, rootRelation: string, user: User, residuals: seq<ResidualCheck>, ghost trust: Trust) returns (r: Outcome)
      requires Idle() && MemoReady(snapshot, user, memo, trust)
      requires Relied(memo, trust) ==> BodyReady(snapshot, trust, NestedKey(snapshot, entity, rootRelation, user), Residuals(residuals))
      modifies this, checks
      ensures Restored() && Idle() && MemoReady(snapshot, user, memo, trust) && memo.Some? == old(memo.Some?)
      ensures var m := KeyMemo(Q(user), limits.maxDepth, [], old(memo), NestedKey(snapshot, entity, rootRelation, user), Residuals(residuals));
              r == m.outcome && memo == m.memo
      ensures Relied(old(memo), trust) ==> Reads(trust, r, ResidualsHold(snapshot, user, Member(snapshot, user), entity, residuals))
    {
      hide Member, Justified, KeyMemo, CheckKeySpec;
      var key := NestedKey(snapshot, entity, rootRelation, user);
      KeyIsRight(Q(user), limits.maxDepth, [], memo, trust, key, Residuals(residuals));
      r := EvaluateCheckKey(user, key, Residuals(residuals));
    }
  }
}
