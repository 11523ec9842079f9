/** An input on which a remembered denial is wrong: the data is cyclic, and the denial was obtained while
    a key it depends on was being evaluated. */
module MemoGaps {
  import opened Vocabulary
  import opened Domain
  import opened Schema
  import opened Semantics
  import opened MembershipAlgebra
  import opened CheckSpec
  import opened CheckCorrect
  import opened CheckMemo
  import opened MemoSpec
  import opened MemoCorrect
  import opened Evaluator

  const BOB := UserId("bob")
  const A := Object("group", "a")
  const B := Object("group", "b")
  const C := Object("group", "c")
  const P := Object("group", "p")
  const R := Object("group", "r")

  /** The members of `inner` are members of `outer`. */
  function Contains(outer: Object, inner: Object): Relationship { Relationship(outer, "member", UsersetSubject(inner, "member")) }

  const C_HAS_BOB := Relationship(C, "member", DirectSubject(Object(USER_TYPE, "bob")))

  /** `a` and `b` contain each other, and `a` contains `c`, of which the subject is a member. */
  const CYCLE := [Contains(R, A), Contains(A, B), Contains(A, C), Contains(B, A), Contains(P, B), C_HAS_BOB]

  const GROUPS := [NamespaceDefinition("group", [RelationDefinition("member", Unspecified, None, None)])]

  function GroupSchema(): CompiledSchema {
    CompiledSchema(GROUPS, SchemaResolver(GROUPS, map["group" := 0], map["group" := map["member" := 0]]))
  }

  function GroupRequest(limits: EvaluationLimits): Request {
    Request(Snapshot(GroupSchema(), Rows(CYCLE, [], {}), None), limits, BOB)
  }

  lemma GroupsAreWellFormed()
    ensures WellFormed(GroupSchema()) && ExclusionFree(GroupSchema())
    ensures GroupSchema().resolver.Relation("group", "member") == Ok(GROUPS[0].relations[0])
  {
    hide ResolvedAs, Positive;
    assert NamespaceCompiled(GROUPS, GROUPS[0]);
  }

  function If<T>(condition: bool, item: T): seq<T> { if condition then [item] else [] }

  lemma SelectHeadFirst<T>(head: T, tail: seq<T>, keep: T -> bool)
    ensures Select([head] + tail, keep) == If(keep(head), head) + Select(tail, keep)
  {
    assert ([head] + tail)[1..] == tail;
  }

  lemma SelectOfThree<T>(a: T, b: T, c: T, keep: T -> bool)
    ensures Select([a, b, c], keep) == If(keep(a), a) + If(keep(b), b) + If(keep(c), c)
  {
    assert [a, b, c] == [a] + [b, c] && [b, c] == [b] + [c] && [c] == [c] + [];
    SelectHeadFirst(a, [b, c], keep);
    SelectHeadFirst(b, [c], keep);
    SelectHeadFirst(c, [], keep);
  }

  /** What is stored on a group. */
  function CycleRows(entity: Object): seq<Relationship> {
    if entity == R then [Contains(R, A)]
    else if entity == A then [Contains(A, B), Contains(A, C)]
    else if entity == B then [Contains(B, A)]
    else if entity == P then [Contains(P, B)]
    else if entity == C then [C_HAS_BOB]
    else []
  }

  lemma GroupsDiffer()
    ensures A != B && A != C && A != P && A != R && B != C && B != P && B != R && C != P && C != R && P != R
  {
  }

  lemma RowsAreOn(entity: Object)
    ensures RowsOn(Rows(CYCLE, [], {}), entity, "member") == CycleRows(entity)
  {
    hide Contains;
    var keep := OnResourceRelation(entity, "member");
    var upper, lower := [CYCLE[0], CYCLE[1], CYCLE[2]], [CYCLE[3], CYCLE[4], CYCLE[5]];
    assert CYCLE == upper + lower;
    SelectConcat(upper, lower, keep);
    SelectOfThree(CYCLE[0], CYCLE[1], CYCLE[2], keep);
    SelectOfThree(CYCLE[3], CYCLE[4], CYCLE[5], keep);
    GroupsDiffer();
    ContainsIsOn();
    NoneSelected<Relationship>([], relationship => relationship !in {});
  }

  lemma ContainsIsOn()
    ensures forall outer, inner :: Contains(outer, inner).resource == outer && Contains(outer, inner).relation == "member"
                                   && Contains(outer, inner).subject == UsersetSubject(inner, "member")
  {
  }

  // ---------------------------------------------------------------- the evaluation

  function KeyTo(entity: Object): CheckKey { CheckKey(PublicName, entity, "member", BOB) }

  /** Evaluating a group is going through its rows, once the subject is known not to be among them. */
  lemma GroupBody(limits: EvaluationLimits, depth: nat, stack: seq<CheckKey>, memo: Memo, key: CheckKey)
    requires key.entity in {A, B, C, P, R} && key.relation == "member"
    ensures var q := GroupRequest(limits);
            BodyMemo(q, depth, stack, memo, key, ByName)
            == if key.entity == C then Memoised(Ok(Allowed), memo, None) else ScanMemo(q, depth, stack, memo, CycleRows(key.entity), None, 0)
  {
    hide ScanMemo, RowsOn, CycleRows, WellFormed, ExclusionFree;
    var q := GroupRequest(limits);
    GroupsAreWellFormed();
    RowsAreOn(key.entity);
    NamesAreValid();
    OnlyCHasBob(key.entity);
    assert key.entity.namespace == "group" && ValidObject(key.entity);
    assert BodyMemo(q, depth, stack, memo, key, ByName) == DefinitionMemo(q, depth, stack, memo, key.entity, "member", GROUPS[0].relations[0]);
    assert BodyMemo(q, depth, stack, memo, key, ByName) == ThisMemo(q, depth, stack, memo, key.entity, "member");
  }

  lemma NamesAreValid()
    ensures ValidTypeName("group") && ValidTypeName("member") && ValidUser(BOB)
    ensures ValidObject(A) && ValidObject(B) && ValidObject(C) && ValidObject(P) && ValidObject(R)
  {
  }

  lemma OnlyCHasBob(entity: Object)
    ensures AnyResourceRelationSubject(Rows(CYCLE, [], {}), entity, "member", FilterOf(BOB)) <==> entity == C
  {
    var rows, node := Rows(CYCLE, [], {}), Node(entity, "member");
    DirectExactForUsers(rows, BOB);
    assert AnyResourceRelationSubject(rows, node.entity, node.relation, FilterOf(BOB)) <==> DirectMember(rows, BOB, node);
    if entity == C {
      assert CYCLE[5] == C_HAS_BOB && Live(rows, C_HAS_BOB) && MatchesSubject(C_HAS_BOB.subject, FilterOf(BOB));
    }
  }

  /** A key that is neither active nor remembered is entered. */
  lemma EnterGroup(limits: EvaluationLimits, depth: nat, stack: seq<CheckKey>, memo: Memo, key: CheckKey)
    requires key.entity in {A, B, C, P, R} && key.relation == "member" && depth > 0
    requires key !in stack && Remembered(memo, stack, key, depth).None?
    ensures var q := GroupRequest(limits);
            var inner := if key.entity == C then Memoised(Ok(Allowed), memo, None)
                         else ScanMemo(q, depth - 1, stack + [key], memo, CycleRows(key.entity), None, 0);
            var low := Lowest(Some(depth - 1), inner.low).value;
            KeyMemo(q, depth, stack, memo, key, ByName)
            == Memoised(inner.outcome, Remembering(inner.memo, stack, key, inner.outcome, depth - low), Some(low))
  {
    hide ScanMemo, BodyMemo, CycleRows, Remembered, Remembering;
    GroupBody(limits, depth - 1, stack + [key], memo, key);
  }

  /** A group that contains one other answers what that one does, unless it is conditional. */
  lemma ScanOne(limits: EvaluationLimits, depth: nat, stack: seq<CheckKey>, memo: Memo, outer: Object, inner: Object, fanout: nat)
    requires fanout < limits.maxFanoutPerStep
    ensures var q := GroupRequest(limits);
            var first := KeyMemo(q, depth, stack, memo, KeyTo(inner), ByName);
            var scanned := ScanMemo(q, depth, stack, memo, [Contains(outer, inner)], None, fanout);
            && scanned.memo == first.memo && scanned.low == first.low
            && (first.outcome == Ok(Allowed) || first.outcome == Ok(Denied) ==> scanned.outcome == first.outcome)
  {
    hide KeyMemo;
    var q := GroupRequest(limits);
    assert NestedKey(q.snapshot, inner, "member", BOB) == KeyTo(inner);
    assert [Contains(outer, inner)][1..] == [];
    var first := KeyMemo(q, depth, stack, memo, KeyTo(inner), ByName);
    assert ScanMemo(q, depth, stack, first.memo, [], None, fanout + 1) == Memoised(Ok(Denied), first.memo, None);
  }

  /** Where the first of two denies, the second decides. */
  lemma ScanTwo(limits: EvaluationLimits, depth: nat, stack: seq<CheckKey>, memo: Memo, outer: Object, inner: Object, other: Object)
    requires limits.maxFanoutPerStep >= 2
    requires KeyMemo(GroupRequest(limits), depth, stack, memo, KeyTo(inner), ByName).outcome == Ok(Denied)
    ensures var q := GroupRequest(limits);
            var first := KeyMemo(q, depth, stack, memo, KeyTo(inner), ByName);
            ScanMemo(q, depth, stack, memo, [Contains(outer, inner), Contains(outer, other)], None, 0)
            == ScanMemo(q, depth, stack, first.memo, [Contains(outer, other)], None, 1).Below(first.low)
  {
    hide KeyMemo;
    var q := GroupRequest(limits);
    assert NestedKey(q.snapshot, inner, "member", BOB) == KeyTo(inner);
    assert [Contains(outer, inner), Contains(outer, other)][1..] == [Contains(outer, other)];
  }

  /** Inside `a`, `b` denies: all it contains is `a`, which is being evaluated. */
  lemma BDeniesInsideA(limits: EvaluationLimits, depth: nat, stack: seq<CheckKey>, memo: Memo)
    requires limits.maxFanoutPerStep >= 1 && depth > 0 && KeyTo(A) in stack && KeyTo(B) !in stack
    requires Remembered(memo, stack, KeyTo(B), depth).None?
    ensures KeyMemo(GroupRequest(limits), depth, stack, memo, KeyTo(B), ByName)
            == Memoised(Ok(Denied), Remembering(memo, stack, KeyTo(B), Ok(Denied), 1), Some(depth - 1))
  {
    hide Remembered, Remembering, ScanMemo;
    var q := GroupRequest(limits);
    GroupsDiffer();
    EnterGroup(limits, depth, stack, memo, KeyTo(B));
    ScanOne(limits, depth - 1, stack + [KeyTo(B)], memo, B, A, 0);
    assert KeyMemo(q, depth - 1, stack + [KeyTo(B)], memo, KeyTo(A), ByName) == Memoised(Ok(Denied), memo, None);
  }

  /** Inside `b`, `a` allows: it contains `c`. */
  lemma AAllowsInsideB(limits: EvaluationLimits, depth: nat, stack: seq<CheckKey>)
    requires limits.maxFanoutPerStep >= 2 && depth > 1 && KeyTo(B) in stack && KeyTo(A) !in stack && KeyTo(C) !in stack
    ensures KeyMemo(GroupRequest(limits), depth, stack, None, KeyTo(A), ByName).outcome == Ok(Allowed)
    ensures KeyMemo(GroupRequest(limits), depth, stack, None, KeyTo(A), ByName).memo == None
  {
    hide ScanMemo;
    var q, inside := GroupRequest(limits), stack + [KeyTo(A)];
    GroupsDiffer();
    EnterGroup(limits, depth, stack, None, KeyTo(A));
    assert KeyMemo(q, depth - 1, inside, None, KeyTo(B), ByName) == Memoised(Ok(Denied), None, None);
    ScanTwo(limits, depth - 1, inside, None, A, B, C);
    EnterGroup(limits, depth - 1, inside, None, KeyTo(C));
    ScanOne(limits, depth - 1, inside, None, A, C, 1);
  }

  /** Without a memo `p`, which contains `b`, allows. */
  lemma PAllowsUnmemoised(limits: EvaluationLimits)
    requires limits.maxFanoutPerStep >= 2 && limits.maxDepth >= 4
    ensures RootMemo(GroupRequest(limits), None, P, "member").outcome == Ok(Allowed)
  {
    hide ScanMemo, KeyMemo;
    var q := GroupRequest(limits);
    var root := RootKey(q.snapshot, P, "member", BOB);
    var depth := limits.maxDepth;
    GroupsDiffer();
    EnterGroup(limits, depth, [], None, root);
    EnterGroup(limits, depth - 1, [root], None, KeyTo(B));
    AAllowsInsideB(limits, depth - 2, [root, KeyTo(B)]);
    assert [root] + [KeyTo(B)] == [root, KeyTo(B)] && [] + [root] == [root];
    ScanOne(limits, depth - 2, [root, KeyTo(B)], None, B, A, 0);
    ScanOne(limits, depth - 1, [root], None, P, B, 0);
  }

  function EmptyMemo(limits: EvaluationLimits): RequestCheckMemo { RequestCheckMemo(map[], MemoCapacity(limits)) }

  ghost predicate RemembersDenial(memo: Memo, depth: nat) {
    memo.Some? && |memo.value.entries| <= memo.value.capacity && memo.value.Get(MemoKeyOf(KeyTo(B)), depth) == Hit(Denied)
  }

  lemma DenialIsRemembered(limits: EvaluationLimits, stack: seq<CheckKey>, depth: nat)
    requires stack != [] && depth >= 1
    ensures RemembersDenial(Remembering(Some(EmptyMemo(limits)), stack, KeyTo(B), Ok(Denied), 1), depth)
  {
    hide RequestCheckMemo.Insert, RequestCheckMemo.Get;
    InsertThenGet(EmptyMemo(limits), MemoKeyOf(KeyTo(B)), Denied, 1, depth);
  }

  lemma DenialStays(memo: Memo, stack: seq<CheckKey>, key: CheckKey, outcome: Outcome, required: nat, depth: nat)
    requires RemembersDenial(memo, depth) && key.entity != B
    ensures RemembersDenial(Remembering(memo, stack, key, outcome, required), depth)
  {
    hide RequestCheckMemo.Insert, RequestCheckMemo.Get;
    if outcome.Ok? {
      InsertThenGet(memo.value, MemoKeyOf(key), outcome.value, required, depth);
    }
  }

  /** Inside another group, `a` allows and leaves the denial of `b` behind. */
  lemma AAllowsAndLeavesADenial(limits: EvaluationLimits, depth: nat, stack: seq<CheckKey>, later: nat)
    requires limits.maxFanoutPerStep >= 2 && depth > 1 && later >= 1
    requires stack != [] && KeyTo(A) !in stack && KeyTo(B) !in stack && KeyTo(C) !in stack
    ensures var m := KeyMemo(GroupRequest(limits), depth, stack, Some(EmptyMemo(limits)), KeyTo(A), ByName);
            m.outcome == Ok(Allowed) && RemembersDenial(m.memo, later)
  {
    hide ScanMemo, KeyMemo, Remembering, RemembersDenial, GroupRequest;
    var q, inside, memo := GroupRequest(limits), stack + [KeyTo(A)], Some(EmptyMemo(limits));
    GroupsDiffer();
    EnterGroup(limits, depth, stack, memo, KeyTo(A));
    BDeniesInsideA(limits, depth - 1, inside, memo);
    ScanTwo(limits, depth - 1, inside, memo, A, B, C);
    var denied := Remembering(memo, inside, KeyTo(B), Ok(Denied), 1);
    DenialIsRemembered(limits, inside, later);
    CAllows(limits, depth - 1, inside, denied, later);
    ScanOne(limits, depth - 1, inside, denied, A, C, 1);
    var scanned := ScanMemo(q, depth - 1, inside, memo, CycleRows(A), None, 0);
    DenialStays(scanned.memo, stack, KeyTo(A), scanned.outcome, depth - Lowest(Some(depth - 1), scanned.low).value, later);
  }

  lemma CAllows(limits: EvaluationLimits, depth: nat, stack: seq<CheckKey>, memo: Memo, later: nat)
    requires depth > 0 && KeyTo(C) !in stack && RemembersDenial(memo, later)
    requires stack != [] && memo == Remembering(Some(EmptyMemo(limits)), stack, KeyTo(B), Ok(Denied), 1)
    ensures var m := KeyMemo(GroupRequest(limits), depth, stack, memo, KeyTo(C), ByName);
            m.outcome == Ok(Allowed) && RemembersDenial(m.memo, later)
  {
    hide KeyMemo, RemembersDenial;
    GroupsDiffer();
    EnterGroup(limits, depth, stack, memo, KeyTo(C));
    DenialStays(memo, stack, KeyTo(C), Ok(Allowed), 1, later);
  }

  /** Checking `r` allows, and leaves the denial of `b` behind. */
  lemma RLeavesADenial(limits: EvaluationLimits)
    requires limits.maxFanoutPerStep >= 2 && limits.maxDepth >= 4
    ensures var m := RootMemo(GroupRequest(limits), Some(EmptyMemo(limits)), R, "member");
            m.outcome == Ok(Allowed) && RemembersDenial(m.memo, limits.maxDepth - 1)
  {
    hide ScanMemo, KeyMemo, RemembersDenial;
    var q := GroupRequest(limits);
    var root := RootKey(q.snapshot, R, "member", BOB);
    var depth, memo := limits.maxDepth, Some(EmptyMemo(limits));
    GroupsDiffer();
    assert [] + [root] == [root];
    EnterGroup(limits, depth, [], memo, root);
    AAllowsAndLeavesADenial(limits, depth - 1, [root], depth - 1);
    ScanOne(limits, depth - 1, [root], memo, R, A, 0);
  }

  /** With that memo `p` denies. */
  lemma PDeniesMemoised(limits: EvaluationLimits, memo: RequestCheckMemo)
    requires limits.maxFanoutPerStep >= 1 && limits.maxDepth >= 1
    requires RemembersDenial(Some(memo), limits.maxDepth - 1)
    ensures RootMemo(GroupRequest(limits), Some(memo), P, "member").outcome == Ok(Denied)
  {
    hide ScanMemo;
    var q := GroupRequest(limits);
    var root := RootKey(q.snapshot, P, "member", BOB);
    GroupsDiffer();
    assert [] + [root] == [root];
    EnterGroup(limits, limits.maxDepth, [], Some(memo), root);
    ScanOne(limits, limits.maxDepth - 1, [root], Some(memo), P, B, 0);
  }

  lemma BobIsInP(limits: EvaluationLimits)
    requires RootSpec(GroupRequest(limits), P, "member") == Ok(Allowed)
    ensures Member(GroupRequest(limits).snapshot, BOB)(Node(P, "member"))
  {
    hide CheckKeySpec, Member;
    GroupsAreWellFormed();
    DirectExactForUsers(Rows(CYCLE, [], {}), BOB);
    CheckIsMembership(GroupRequest(limits), P, "member");
  }

  /** One context answers two requests, and then a context without a memo the second one again: on cyclic
      data the memo makes the difference. */
  method RememberedDenialIsWrong(limits: EvaluationLimits) returns (first: Outcome, second: Outcome, unmemoised: Outcome)
    requires limits.maxFanoutPerStep >= 2 && limits.maxDepth >= 4
    ensures first == Ok(Allowed) && second == Ok(Denied) && unmemoised == Ok(Allowed)
    ensures Member(GroupRequest(limits).snapshot, BOB)(Node(P, "member"))
  {
    hide KeyMemo, Member, CheckKeySpec;
    RLeavesADenial(limits);
    PAllowsUnmemoised(limits);
    var snapshot := GroupRequest(limits).snapshot;
    assert GroupRequest(limits) == Request(snapshot, limits, BOB);
    var context := new EvaluationContext.WithRequestMemo(snapshot, limits);
    first := context.Check(R, "member", BOB, Untrusted);
    context.ResetForReuse();
    PDeniesMemoised(limits, context.memo.value);
    second := context.Check(P, "member", BOB, Untrusted);
    var plain := new EvaluationContext(snapshot, limits);
    unmemoised := plain.Check(P, "member", BOB, Untrusted);
    BobIsInP(limits);
  }
}
