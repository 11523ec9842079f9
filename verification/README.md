# Verified model of simple-zanzibar

simple-zanzibar is an in-process authorization engine. A schema of userset rewrites is compiled to a
resolved form; relationships live in an interned, posting-indexed store under a checkpoint-plus-delta
overlay; a recursive evaluator answers checks and lookups over immutable snapshots; a writer publishes
snapshots under revisions and hands out consistency tokens. This project models those parts in Dafny and
proves what they promise. `dafny verify dfyconfig.toml` checks all of it.

The files, by component:

* **Vocabulary** - `Vocabulary`, `Domain`: objects, relationships, filters, limited queries over a view.
* **Schema** - `Schema`, `NamespaceConfigs`: the compiler from names to ids, and the writer's configurations.
* **Evaluator** - `Semantics` (least solutions and unique solutions of the schema equations), `Membership`
  (module `MembershipAlgebra`), `CheckSpec` and `CheckCorrect` (the memo-free check and why it is membership),
  `ActiveStack`, `CheckMemo`, `MemoSpec` and `MemoCorrect` (the check with a memo, as a function, and when it is
  right), `Evaluator` (the context with depth, stacks, frames and memo, which computes that function), `MemoGaps`
  (when a memo is wrong), `Planner`.
* **Lookups** - `SubjectExploration` with `LookupSubjects`; `RelationReach` and `RelationEdges` (which relations
  lead to which, and the search that finds them), `ResourceWalk` (the walk of `lookup_resources` as a function),
  `LookupResources` (the objects that compute it), `ResourceCoverage`, `ResourceClosure` and `ResourceBounds`
  (what a finished walk has found), `LookupGaps` (what it can lose).
* **Store** - `LiveRows`, `Interner`, `IdentityIndex`, `PostingIndex`, `StoredRows`, `StoreCapacity` (what there is
  room for), `RelationshipStore`, `StoreView`.
* **Snapshot codec** - `SnapshotBytes`, `PostingCodec`, `IndexGroups`, `GroupEncoding`, `SpanCover`, `IndexDecoder`,
  `IndexEncoder`, `PostingCounts`, `SnapshotRows`, `SnapshotSymbols`, `SnapshotStore` (all sections of a store),
  `IndexDirectory`, `IndexBytes`, `SnapshotHeader`, `SectionDirectory`, `SnapshotEnvelope`, `SnapshotFile` (whole
  files as bytes).
* **Publication** - `PublishedHistory`, `Publication`, `PublishedReads`.
* **Text** - `TextOrder`, `RelationshipText`, `PolicyText`.

How to read the claims:

* A *valuation* says which user is in which userset. Membership is the limit of the iterates of the schema
  equations; it is the least solution for exclusion-free schemas and the only solution on acyclic data.
* Hash functions are parameters nothing is known about, so collisions are covered everywhere. So are the digest of a
  snapshot file and the function from schema text to schema hash.
* Capacity limits (32-bit ids and offsets, 64-bit revisions) are error results of the operations. "Exhaustion
  apart" in the table means that a failure for one of these reasons is possible on any input.
* The writer keeps two ghost fields: the log of everything it ever published, and the objects those
  snapshots consist of. No command may write to the latter, so a published snapshot never changes.
* Clocks, randomness and other processes do not occur: the datastore identifier is a parameter.

Where the code differs from what one might expect, or from its own documentation, the code is followed:

* A subject filter without a relation also matches userset subjects. The exact conditions under which a
  direct check is still right are `CheckCorrect.DirectTestMissesExactly` and its neighbours.
* A query limit is used up inside each segment before tombstones are removed. `StoreView.AnyMatchMissesExactly`,
  `StoreView.LimitedQueryIsExact` and `SubjectExploration.TruncatedExactly` say exactly when that loses something;
  `StoreView.AnyMatchCanMiss` and `SubjectExploration.TruncationCanLoseRows` lose it, for every limit.
* `lookup_resources` does not find everything `check` allows, even on acyclic data without exclusion, because a
  candidate counts as seen before it is verified, tuple rows that name the userset itself keep all others from
  being followed, and rows on unplanned relations may be pruned. `LookupGaps` has an input for each. Where no row
  can be pruned and no rule is contested, a member is returned if and only if it is `ResourceBounds.Reachable`;
  `ResourceCoverage.Exhaustive` is a condition on snapshot, schema and plan under which nothing is lost.
* A denial under a cycle cut is remembered although it may depend on the cut. On cyclic data a context that keeps
  its memo can therefore deny a member: `MemoGaps.RememberedDenialIsWrong`. What it answers is stated exactly
  (`Evaluator.EvaluationContext.Check`); acyclic data is sufficient for the answer to be membership. On any data of
  an exclusion-free schema, what is found out while some usersets are active is right throughout if and only if the
  user is in none of them: `CheckCorrect.ActiveAnswersAreRight`.
* `delete_namespace` is documented to fail if any relationship still references the namespace. The code lets
  direct subjects of the deleted type stay: `NamespaceConfigs.NamespaceCanGo` and `DirectSubjectsMayDangle`.
* The estimate made before a batch of touches counts an unknown identifier each time it occurs, so a batch can be
  refused although it would fit; what is accepted always fits: `StoreCapacity.EstimateSuffices`.
* An interner in sorted form that runs out of bytes has already listed the new id, and is unusable from then on:
  `Interner.IdentifierInterner.Intern` says exactly when.
* A relationship of maximal length prints to 773 bytes and is not accepted back, the limit being 768:
  `RelationshipText.LongestTextIsRejected`.

## Model

| member | source | states |
|---|---|---|
| `Schema.NewResolver` | src/schema/mod.rs:362-417 | the name tables are built exactly when no namespace or relation name repeats, and then send each name to its one position |
| `Schema.LookupsAgree` | src/schema/mod.rs:418-499 | finding a relation by name, its id by name, and the relation by id agree with one another and with the definitions; the lookup succeeds exactly for defined relations |
| `Schema.TargetValidationIsExact` | src/schema/mod.rs:835-870 | a tuple-to-userset target is accepted exactly if it is defined on every listed subject type, or anywhere when none are listed |
| `Schema.ValidationIsExact` | src/schema/mod.rs:742-834 | reference validation of a rewrite succeeds exactly if everything it refers to exists and no set operation is empty |
| `Schema.CompilationResolves` | src/schema/mod.rs:675-718 | a validated rewrite always compiles, and every id in the result points at the relation it names |
| `Schema.FromDefinitions` | src/schema/mod.rs:132-142 | compilation succeeds exactly on legal definitions; the ids computed against the first resolver are right in the second |
| `Schema.FoundIsLinked` | src/schema/mod.rs:437-499 | what a lookup finds carries the name asked for and a rewrite whose every id leads to the relation it is stored beside |
| `Semantics.ResolvedMeansTheSame` | src/schema/mod.rs:647-718 | a compiled rewrite and its source hold for the same user under every valuation |
| `Semantics.CompiledEquationsAreSourceEquations` | src/schema/mod.rs:132-142 | under every valuation the equation the compiled schema states for a userset is the one its source definition states |
| `Semantics.LeastIsFixpoint` | src/eval.rs:1329-1526 | for exclusion-free schemas the limit of the iterates solves the schema equations |
| `Semantics.LeastIsLeast` | src/eval.rs:1329-1526 | every solution of the equations contains the limit of the iterates |
| `Semantics.BlockingSelf` | src/eval.rs:1038-1081 | a userset is in the least solution exactly if its body holds over the least solution in which the userset itself is forced empty: the step that justifies denying active keys |
| `Semantics.BlockingStrangers` | src/eval.rs:1038-1081 | forcing usersets empty, as denying active keys does, changes the least solution if and only if the user is in one of them |
| `Semantics.SolutionIsIterate` | src/eval.rs:1329-1526 | on acyclic data, exclusion included, any solution agrees with every late enough iterate |
| `Semantics.MemberSolves` | src/eval.rs:1329-1526 | membership solves the schema equations, on exclusion-free schemas and on acyclic data |
| `Semantics.MemberIsUnique` | src/eval.rs:1329-1526 | on acyclic data membership is the only solution |
| `CheckCorrect.DirectTestMissesExactly` | src/relationship.rs:929-963 | the direct-membership test misses a member exactly if nothing inserted matches and the first checkpoint match is a tombstone |
| `CheckCorrect.DirectTestCanMiss` | src/relationship.rs:1211-1240 | a view on which the direct test does miss a live relationship |
| `CheckCorrect.DirectExactForUsersets` | src/relationship.rs:929-963 | for a userset subject the direct test is exact on every view |
| `CheckCorrect.DirectExactForUsers` | src/relationship.rs:3257-3265 | for a plain user the direct test is exact on every view without usersets of the user type |
| `CheckCorrect.ExprAgreesWith` | src/eval.rs:1329-1526 | short-circuiting, operand order and exclude-first evaluation do not change what a rewrite means |
| `CheckCorrect.BodyAgreesWith` | src/eval.rs:1267-1327 | entering a key evaluates the equation of its userset |
| `CheckCorrect.PublicRoot` | src/eval.rs:482-519 | a root key that is no nested key may unfold its userset once more without changing the answer |
| `CheckCorrect.PositiveCheckIsLeast` | src/eval.rs:1118-1128 | on exclusion-free schemas with arbitrary cyclic data an allowed answer means least-solution membership and a denied answer means its absence |
| `CheckCorrect.AcyclicCheckIsMember` | src/eval.rs:1118-1128 | on acyclic data, exclusion included, every answer is the unique solution of the equations |
| `CheckCorrect.ActiveAnswersAreRight` | src/eval.rs:1038-1102 | on exclusion-free schemas with cyclic data, the answers given while some usersets are active, which is when answers are remembered, are all right if and only if the user is in none of these usersets |
| `CheckCorrect.CheckIsMembership` | src/eval.rs:1994-2002 | on either kind of snapshot every answer of a memo-free check is declarative membership |
| `CheckCorrect.DepthSuffices` | src/eval.rs:1049-1081 | each entered key is new, so depth for the usersets not yet entered is never exceeded |
| `CheckCorrect.CheckAnswers` | src/eval.rs:1118-1128 | with one unit of depth per userset of a closed universe and one for the root, a check within the fanout limit always answers |
| `ActiveStack.ActiveStack.IsActive` | src/eval.rs:1886-1894 | the generation-stamped index and the stack never disagree on which keys are active |
| `ActiveStack.ActiveStack.Push` | src/eval.rs:1895-1910 | pushing keeps the stack duplicate-free and the index in step, across the rebuild at the threshold |
| `ActiveStack.ActiveStack.Rebuild` | src/eval.rs:1925-1936 | after a rebuild every active key carries a live mark |
| `ActiveStack.ActiveStack.Pop` | src/eval.rs:1911-1924 | popping removes the last key from stack and index alike |
| `ActiveStack.ActiveStack.Reset` | src/eval.rs:992-1010 | reuse empties the stack and outdates all marks, also when the generation counter wraps |
| `CheckMemo.InsertThenGet` | src/eval.rs:660-701 | an entry keeps the smallest depth it was established with, the table stays within its capacity, and what is taken in is what any caller with that much depth then gets; other keys answer as before |
| `MemoCorrect.RememberedIsSpec` | src/eval.rs:1083-1102 | on acyclic data a remembered answer is the one the memo-free check gives, if it gives one |
| `MemoCorrect.KeyIsRight` | src/eval.rs:1038-1102 | the memoised evaluation of a key answers membership and leaves a memo that is still right: on acyclic data in full, on exclusion-free schemas as far as allowances go, and where answers may be relied on the memo-free answer is given whenever there is one |
| `MemoGaps.RememberedDenialIsWrong` | src/eval.rs:1083-1102 | an executable run on cyclic group data: one check, a reset that keeps the memo, and a second check that is denied although its user is a member and a fresh context allows it |
| `Evaluator.EvaluationContext.EvaluateCheckKey` | src/eval.rs:1038-1102 | on any data the context computes the evaluation in which memo and lowest depth are passed along as values: answer and memo agree with it, the frames record its lowest depth, and depth and stacks are as before on every return |
| `Evaluator.EvaluationContext.EnterCheckKey` | src/eval.rs:1056-1081 | one level of depth and one stack entry are spent on a key and given back; the depth reported for the memo is the depth below which the key was answered |
| `Evaluator.LeavesWhatWasEntered` | src/eval.rs:1861-1885 | opening a frame, evaluating and closing it again raises the parent frame by exactly the depth the child needed, and the closed frame names that depth |
| `Evaluator.EvaluationContext.EvaluateExpression` | src/eval.rs:1329-1379 | evaluating a rewrite with depth, stacks, frames and memo as fields follows its evaluation on values |
| `Evaluator.EvaluationContext.EvaluateExcludeFirst` | src/eval.rs:1501-1517 | excluding first, the base is not evaluated for an excluded user; memo and depth follow that order |
| `Evaluator.EvaluationContext.EvaluateBaseFirst` | src/eval.rs:1501-1526 | base first, the excluded set is not evaluated for a user outside the base |
| `Evaluator.EvaluationContext.ScanUsersets` | src/eval.rs:1392-1456 | the row loop of direct and tuple-to-userset rewrites stops at the first allowance or at the fanout limit, the memo growing row by row |
| `Evaluator.EvaluationContext.Check` | src/eval.rs:1118-1128 | a request gives the answer and the memo of the evaluation on values; under the stated trust the answer is membership, and the memo stays right for the next request |
| `Evaluator.EvaluationContext.CheckPrepared` | src/eval.rs:1130-1150 | the same for a request with its definition looked up beforehand |
| `Evaluator.EvaluationContext.VerifyLookupResiduals` | src/eval.rs:1151-1189 | the residual checks give the answer and the memo of evaluating each on values; on acyclic data they hold exactly as membership says, on exclusion-free schemas what they allow holds, and depth, stacks and memo soundness are kept |
| `Evaluator.EvaluationContext.EnterExpand` | src/eval.rs:1828-1860 | entering an expansion pushes its key on a duplicate-free stack and spends one level of depth |
| `Planner.RelationPlanCorrect` | src/eval.rs:2862-2886 | for any solution of the equations: a direct row on a collected rule whose residuals hold gives the permission, and a member has a row, on the relation of one of its rules, the residuals of which hold |
| `Planner.LookupPlanIsCorrect` | src/eval.rs:2826-2860 | the plan of a permission is sufficient and necessary under every solution of the equations, cyclic data included, and names the relations of all its rules |
| `Planner.MergeIsCorrect` | src/eval.rs:3013-3028 | merging the rules of union operands keeps them sufficient and necessary |
| `Planner.LookupPlanIsReady` | src/eval.rs:2888-3012 | the residuals of a plan only consult usersets the permission itself may consult |
| `SubjectExploration.ClosedWalkMissesNobody` | src/eval.rs:1638-1826 | when everything reached is explored within what is reached, a subject not seen is no member of anything reached |
| `SubjectExploration.MembersAreSeen` | src/eval.rs:3132-3162 | on a closed walk every member of the root is seen, although active nodes are cut and seen usersets skipped |
| `SubjectExploration.TruncatedExactly` | src/eval.rs:1852-1860 | a row query within the fanout limit is complete exactly if every checkpoint row beyond the limit is a tombstone |
| `SubjectExploration.TruncationCanLoseRows` | src/relationship.rs:1211-1240 | for every fanout limit a view with a live row on which the query gives nothing |
| `SubjectExploration.ExclusionFreeIsAssured` | src/eval.rs:2779-2820 | exclusion-free schemas without usersets of the subject type, on views without tombstones, meet the conditions of an exact lookup |
| `LookupSubjects.SubjectLookup.StreamRelation` | src/eval.rs:1638-1700 | walking a userset explores it completely or stops at the result cap |
| `LookupSubjects.SubjectLookup.StreamExpression` | src/eval.rs:1702-1783 | walking a rewrite explores all its operands, verifying candidates wherever the rewrite is not direct |
| `LookupSubjects.SubjectLookup.Collect` | src/eval.rs:3104-3172 | a candidate is decided once; unverified ones are members |
| `LookupSubjects.Lookup` | src/eval.rs:2779-2820 | no duplicates, within the cap, of the requested type; on assured snapshots everything returned is a member, and below the cap exactly the members are returned |
| `RelationEdges.SameObjectExpansionsAreExact` | src/eval.rs:2301-2449 | same-object expansion finds exactly the other relations of the object that lead to the userset through computed usersets, in the order of their names |
| `RelationEdges.SearchDecidesInclusion` | src/eval.rs:2349-2449 | the recursive search with its visiting set decides whether a rewrite leads to a relation, cyclic schemas included |
| `RelationEdges.TupleTargetsAreExact` | src/eval.rs:2555-2747 | tuple-to-userset expansion finds exactly the tuple-to-userset rewrites, anywhere in the schema, that take over a relation leading to the userset |
| `LookupResources.RuleDecides` | src/eval.rs:722-745 | the verification a rule picks for a row naming the subject itself decides membership of the row resource |
| `LookupResources.ResourceLookup.ChosenDecides` | src/eval.rs:2202-2261 | a verification short of a full check is chosen only where it decides membership |
| `LookupResources.ResourceLookup.ShouldPrune` | src/eval.rs:870-914 | prunes exactly the rows on relations outside the plan, once sampling has switched pruning on, and counts as sampling says |
| `LookupResources.ResourceLookup.ExpandSameObject` | src/eval.rs:2263-2299 | the usersets a reached userset leads to on the same object are queued, each once, if some row names them |
| `LookupResources.ResourceLookup.ProcessRow` | src/eval.rs:2128-2200 | a row is pruned, verified and followed as one step of the walk says |
| `LookupResources.ResourceLookup.ProcessTupleEdges` | src/eval.rs:2451-2553 | exact tuple rows, or else those of any relation, are followed as one step of the walk says |
| `LookupResources.ResourceLookup.Walk` | src/eval.rs:2039-2126 | the walk ends on any data with sound results, and where verification is exact its results are those of the walk as a function of snapshot and request |
| `LookupResources.Lookup` | src/eval.rs:2039-2126 | no duplicates, within the cap, of the requested type, sound on exclusion-free or acyclic snapshots; on acyclic ones, below the cap, exactly the members under the conditions of `Exhaustive`, and where no row can be pruned and no rule is contested a member is returned if and only if the rows and edges lead to it |
| `ResourceCoverage.ClosedWalkSeesEveryMember` | src/eval.rs:2039-2553 | when everything reached has been followed, every member of the requested type is among the candidates, provided tuple rows are found, only leaves are pruned and rows are posted |
| `ResourceClosure.UncontestedIsFair` | src/eval.rs:2166-2182 | if no rule leaves residuals another does not leave, whichever row reaches a resource first decides its membership rightly |
| `ResourceClosure.FinishedWalkIsComplete` | src/eval.rs:2039-2126 | a finished walk below the cap on an exhaustive request returns every member |
| `ResourceBounds.MembersAreReturnedIfReachable` | src/eval.rs:2039-2553 | without rows to prune and without contested rules, a finished walk below the cap returns a member if and only if every set of usersets closed under the rows and edges it follows leads to the resource |
| `ResourceBounds.SaneWalkEnds` | src/eval.rs:2039-2126 | on a snapshot with valid identifiers and resolving rows the walk ends with a result and not with an error |
| `LookupGaps.ContestedResidualsMiss` | src/eval.rs:2166-2182 | a member is lost on acyclic data because a row under an intersection is turned down first and the resource then counts as seen; every other condition of a complete answer holds |
| `LookupGaps.ExactRowsHideOthers` | src/eval.rs:2532-2553 | a member is lost because rows naming the userset itself keep rows naming other relations of its object from being followed |
| `LookupGaps.ExactRowsLeadNoFurther` | src/eval.rs:2532-2553 | a member two folders down is lost because a row followed by name is not followed through the tuple-to-userset rewrite |
| `LookupGaps.PrunedRowsLeadOn` | src/eval.rs:2749-2772 | a member is lost because a row on an unplanned relation is pruned although its resource is named by another row |
| `LiveRows.LiveRows.SparseFull` | src/relationship.rs:5568-5582 | switching to the bitmap keeps exactly the rows below the length alive |
| `LiveRows.LiveRows.Insert` | src/relationship.rs:5583-5603 | a row becomes alive and no other row changes, in either representation |
| `LiveRows.LiveRows.Remove` | src/relationship.rs:5604-5614 | a row stops being alive and no other row changes; an all-live set turns into a bitmap |
| `Interner.IdentifierInterner.Lookup` | src/relationship.rs:2781-2807 | for any hash function, a string is found exactly if it was interned, under its id, in the hash-table mode and in the sorted mode alike |
| `Interner.IdentifierInterner.Intern` | src/relationship.rs:2731-2779 | a known string keeps its id, a new one gets the next id, no id changes its meaning; failure is exactly lack of capacity, and a failure for want of bytes, no other, leaves a sorted form unusable |
| `Interner.InsertSorted` | src/relationship.rs:2752-2761 | partition-point insertion keeps the list in order of hash and then id |
| `Interner.IndexFullLookup` | src/relationship.rs:2973-3036 | a fully validated load accepts exactly distinct symbols with right hashes, and its tables find every one |
| `Interner.EncodeAcceleration` | src/relationship.rs:2603-2630 | the stored hashes and hash-ordered ids list every symbol once |
| `IdentityIndex.RelationshipIdentityIndex.Find` | src/relationship.rs:3064-3080 | for any hash function, a row is found exactly if an equal row is held |
| `IdentityIndex.RelationshipIdentityIndex.Insert` | src/relationship.rs:3081-3097 | a new row joins the held rows, behind its collisions if there are any |
| `IdentityIndex.RelationshipIdentityIndex.Remove` | src/relationship.rs:3098-3146 | exactly the row equal to the argument leaves the held rows, whether by promoting a collision or by swap-removal |
| `PostingIndex.PostingIndex.Candidates` | src/relationship.rs:2398-2423 | the hashed and the sorted form answer a key with the same list |
| `PostingIndex.PostingIndex.EnsureHashProfile` | src/relationship.rs:2424-2450 | turning the sorted form into hash tables keeps every list |
| `PostingIndex.PostingIndex.Insert` | src/relationship.rs:2384-2397 | a row is appended to the list of its key and to no other |
| `StoredRows.PostingScanIsLinearScan` | src/relationship.rs:2209-2244 | scanning the posting list of a key within a limit gives the first matching live rows of a linear scan, in row order |
| `StoredRows.MatchesHaveTheKey` | src/relationship.rs:1965-2012 | every row a matcher accepts is posted under the key the matcher chooses |
| `StoredRows.PostedQueryIsLinear` | src/relationship.rs:1965-2075 | for any rows and live set, the posted query equals the linear scan with the same matcher |
| `StoredRows.RowsAreRelationships` | src/relationship.rs:3148-3170 | rows are equal exactly if they stand for equal relationships |
| `RelationshipStore.StepsAreSetAlgebra` | src/relationship.rs:1255-1324 | a batch naming no relationship twice succeeds exactly if each mutation would alone, and its result does not depend on their order |
| `RelationshipStore.IndexedRelationshipStore.Insert` | src/relationship.rs:1807-1816 | an absent relationship is appended to the contents and all indexes stay exact; it fails exactly if there is no room for the row or for its new identifiers, and then leaves the contents of a hash-backed store as they were |
| `RelationshipStore.IndexedRelationshipStore.InternRow` | src/relationship.rs:3179-3209 | a relationship is interned exactly if there is room for those of its identifiers that are not known; known symbols keep their meaning, and the row stands for the relationship |
| `RelationshipStore.IndexedRelationshipStore.DeleteRelationship` | src/relationship.rs:1818-1834 | exactly that relationship leaves the contents, or the store reports it absent |
| `RelationshipStore.IndexedRelationshipStore.EnsureUniquenessIndex` | src/relationship.rs:1398-1421 | the rebuilt identity index holds exactly the live rows, and fails exactly on duplicates |
| `RelationshipStore.IndexedRelationshipStore.QueryRelationships` | src/relationship.rs:1881-1990 | yields exactly what a linear scan of the contents yields, in order, up to the limit |
| `RelationshipStore.IndexedRelationshipStore.ReverseQueryRelationships` | src/relationship.rs:1942-2012 | yields exactly what a linear scan by subject yields, in order |
| `RelationshipStore.IndexedRelationshipStore.HasSubjectCandidates` | src/relationship.rs:1663-1668 | says whether a posting list exists, alive or not; a live match is never denied |
| `RelationshipStore.IndexedRelationshipStore.CompactIfNeeded` | src/relationship.rs:2030-2075 | compaction keeps the contents and their order |
| `RelationshipStore.IndexedRelationshipStore.Clone` | src/relationship.rs:702-731 | a copy has the same contents and shares no part |
| `RelationshipStore.IndexedRelationshipStore.ApplyMutations` | src/relationship.rs:1255-1356 | a batch has exactly the effect of its mutations or fails for the first reason it has to, leaving the contents as they were; running out of capacity leaves them so too, except that a batch applied in place may be whole when only its compaction fails, and a sorted-lookup store may not survive a single mutation |
| `RelationshipStore.IndexedRelationshipStore.ApplyTouches` | src/relationship.rs:1326-1356 | a batch of touches succeeds exactly if the estimate of rows, symbols and bytes made beforehand finds room, and changes nothing otherwise |
| `StoreCapacity.EstimateSuffices` | src/relationship.rs:1330-1397 | the estimate counts an unknown identifier each time it occurs, so whatever it finds room for really has room |
| `StoreCapacity.FirstFits` | src/relationship.rs:1326-1356 | where a batch fits, its first relationship does, and the rest still fits the symbols that leaves |
| `StoreView.AnyMatchMissesExactly` | src/relationship.rs:830-832 | a precondition test misses a live match exactly if nothing inserted matches and every checkpoint match within the limit is a tombstone |
| `StoreView.AnyMatchCanMiss` | src/relationship.rs:830-832 | for every limit a view and a filter whose live match the precondition test misses |
| `StoreView.AnyMatchIsExactWithoutTombstones` | src/relationship.rs:830-832 | without tombstones the precondition test is exact |
| `StoreView.UnboundedQueryIsExact` | src/relationship.rs:1174-1240 | with an unbounded limit a query over the overlay yields exactly the live matches, each once |
| `StoreView.LimitedQueryIsExact` | src/relationship.rs:1174-1240 | a limited query over the overlay yields exactly the live matches if and only if the inserted matches fit the limit and every checkpoint match beyond it is deleted |
| `Vocabulary.QueryIsSound` | src/relationship.rs:1211-1240 | whatever the limit, every yielded row is a live match |
| `StoreView.RelationshipStoreView.QueryRelationships` | src/relationship.rs:860-878 | the two-phase iterator yields the segment-by-segment query, the limit counting before tombstones are dropped |
| `StoreView.RelationshipStoreView.ReverseQueryRelationships` | src/relationship.rs:880-898 | the same for queries by subject |
| `StoreView.RelationshipStoreView.HasReverseSubjectCandidates` | src/relationship.rs:900-905 | the same over both segments: a live match is never denied |
| `StoreView.RelationshipStoreView.LiveRelationshipList` | src/relationship.rs:836-848 | lists every live relationship once |
| `StoreView.ApplyDelta` | src/relationship.rs:1059-1153 | one mutation of the delta does to the relationship set what the mutation says, and keeps the overlay invariant |
| `StoreView.RelationshipStoreView.ApplyMutations` | src/relationship.rs:749-826 | a batch succeeds exactly if its preconditions pass, it names no relationship twice and each mutation applies (capacity apart); the new view holds the result, the old one is untouched |
| `StoreView.Fold` | src/relationship.rs:1155-1172 | folding the delta into a checkpoint keeps the relationship set |
| `StoreView.EvaluatorQueriesAreViewQueries` | src/relationship.rs:907-963 | the row queries of the evaluator are queries of the view |
| `SnapshotBytes.LittleEndianRoundTrip` | src/relationship.rs:3468-3491 | a value that fits its width is read back |
| `SnapshotBytes.WidthFits` | src/relationship.rs:3444-3467 | the chosen key width holds every value up to the largest, no narrower one does, and its flag bits name it |
| `SnapshotBytes.BinaryCursor.ReadValue` | src/snapshot.rs:1414-1456 | a read succeeds exactly if the bytes are there, advances past them, and a failed one leaves the cursor |
| `SnapshotBytes.VarintRoundTrip` | src/relationship.rs:3931-3960 | every nonzero 32-bit delta is read back from one to five bytes, wherever it was written |
| `SnapshotBytes.VarintIsBounded` | src/relationship.rs:5078-5114 | an accepted delta is a nonzero 32-bit value of at most five bytes |
| `SnapshotBytes.DecodeVarint` | src/relationship.rs:5078-5114 | the group-by-group loop computes that reading, with every refusal |
| `PostingCodec.PostingRoundTrip` | src/relationship.rs:3889-3929 | an increasing list of row ids is read back from its first id and deltas |
| `PostingCodec.DecodePostingList` | src/relationship.rs:4976-5128 | the decoder reads exactly the list the range and deltas denote |
| `PostingCodec.PostingListIsValid` | src/relationship.rs:5116-5128 | an accepted list is nonempty, strictly increasing and within the row count |
| `IndexGroups.MergeEntries` | src/relationship.rs:4887-4930 | merging succeeds exactly if no key is in both lists, and gives all entries in key order |
| `IndexGroups.DecodeGroup` | src/relationship.rs:4751-4885 | a group section is accepted exactly if it stores a group, and its entries come back in key order |
| `IndexGroups.OrderIsUnique` | src/relationship.rs:4932-4960 | entries have only one key order |
| `GroupEncoding.GroupWidth` | src/relationship.rs:3856-3866 | every field of every key fits the chosen width |
| `GroupEncoding.EncodeGroup` | src/relationship.rs:3815-3854 | writes the singletons beside their keys and the longer lists behind their ranges |
| `GroupEncoding.GroupRoundTrip` | src/relationship.rs:3815-3929 | a group comes back with its keys in order and its lists, whatever else the posting section holds |
| `SpanCover.ValidateSpansCover` | src/relationship.rs:4468-4485 | spans, empty ones included, are accepted exactly if in some order each begins where the one before ends |
| `SpanCover.SortingFindsTheTiling` | src/relationship.rs:4468-4485 | if any order of the spans is contiguous, the sorted order is |
| `SpanCover.TilesCoverOnce` | src/relationship.rs:4468-4485 | accepted spans hold every offset exactly once |
| `SpanCover.CoveringTiles` | src/relationship.rs:4468-4514 | nonempty spans are accepted exactly if every offset of the section lies in one of them and no other offset in any |
| `IndexDecoder.MatchesAreKeys` | src/relationship.rs:5243-5281 | a disk key matches a row exactly if the row is posted under it |
| `IndexDecoder.BitsAreKeys` | src/relationship.rs:5283-5300 | the keys of a row of one kind and its coverage bits correspond one to one |
| `IndexDecoder.CoverPosting` | src/relationship.rs:4577-4610 | marking a posting succeeds exactly if every row matches the key and is not yet marked for it |
| `IndexDecoder.CheckCoverage` | src/relationship.rs:4624-4637 | the final check passes exactly if every row has the bits it needs |
| `IndexDecoder.DecodeIndex` | src/relationship.rs:4543-4646 | whatever bytes are accepted for a required kind, the index lists for every key exactly the rows that have it; kinds not required are empty; faithful bytes are accepted |
| `IndexEncoder.BuildGroup` | src/relationship.rs:3718-3792 | every row is posted under its keys, in row order |
| `IndexEncoder.GroupPostsRows` | src/relationship.rs:3718-3792 | posting the rows one after another gives a group that lists, in key order, exactly the keys of the kind that some row has, each with its rows in their order |
| `IndexEncoder.IndexRoundTrip` | src/relationship.rs:3637-3705 | an index of any rows, written and read back with full validation, lists exactly the rows of every key |
| `SnapshotRows.RowFromFieldsIsInverse` | src/relationship.rs:5346-5383 | reading the six fields of a row inverts writing them |
| `SnapshotRows.DecodeRows` | src/relationship.rs:5312-5405 | a row section is accepted exactly if it stores resolvable, valid, distinct rows in the width its flags name, and is read as those |
| `SnapshotSymbols.DecodeTable` | src/relationship.rs:2632-2690 | the symbol table is accepted exactly if its length is right and every symbol lies within the bytes |
| `SnapshotSymbols.EncodeTable` | src/relationship.rs:2857-2872 | the table is written in widths that hold every entry |
| `SnapshotSymbols.DecodeSymbols` | src/relationship.rs:2632-2729 | full validation accepts exactly sections with consistent lengths, right hashes, distinct symbols and a strictly ordered lookup, and rebuilds an interner of those symbols |
| `SnapshotSymbols.EncodeSymbols` | src/relationship.rs:1468-1492 | the written sections load as the same symbols under the same ids |
| `SnapshotStore.ValidatePostingSpans` | src/relationship.rs:4487-4514 | posting ranges are accepted exactly if their first row ids exist, they lie within the posting section, and every byte of it belongs to exactly one of them |
| `SnapshotStore.LongerListsTile` | src/relationship.rs:3889-3929 | the longer lists of a group are written one after another without gaps |
| `SnapshotStore.LoadIndex` | src/relationship.rs:4543-4646 | an accepted index section answers exactly; a stored one is accepted |
| `SnapshotStore.LoadIndexes` | src/relationship.rs:3963-4013 | whatever is accepted, the seven indexes together answer every key with exactly its rows, and the stated number of posting ids is the one decoded; stored sections whose ranges share out the posting bytes are accepted |
| `PostingCounts.LoadedCount` | src/relationship.rs:4516-4534 | an index that answers exactly holds as many row ids beside the first of each list as are written for the rows, however it was encoded |
| `SnapshotStore.LoadStore` | src/relationship.rs:1568-1617 | whatever sections are accepted in full validation, the store is valid and holds exactly the relationships of the stored rows, so every query theorem applies to it; sections that store something are accepted |
| `SnapshotStore.SaveStore` | src/relationship.rs:1462-1548 | the written sections are acceptable, of the sizes the directory states, and their rows stand for the contents; it fails exactly if something written does not fit 32 bits: symbol bytes, symbols, rows, where the keys of an index begin, keys, ranges, posting ids, or where a list of deltas begins and how long it is |
| `SnapshotStore.SaveThenLoad` | src/relationship.rs:1462-1617 | saving and loading gives the same relationships in the same order, exactly unless something written does not fit 32 bits |
| `IndexDirectory.ValidateLayout` | src/relationship.rs:4358-4433 | a directory is accepted exactly if its entries share out the key bytes and the ranges, with nothing left over |
| `IndexDirectory.SharesAreDisjoint` | src/relationship.rs:4358-4433 | no key byte and no range belongs to two entries of an accepted directory |
| `IndexDirectory.DirectoryRoundTrip` | src/relationship.rs:3637-3705 | the directory written for seven index sections is acceptable, and slicing by it gives back each section under its kind |
| `IndexDirectory.LoadFile` | src/relationship.rs:1568-1617 | an accepted file names every kind once, shares out its index sections, and loads as a valid store of the rows it stores; a file written from acceptable sections loads as their relationships |
| `IndexDirectory.StoreFileRoundTrip` | src/relationship.rs:1462-1617 | saving through the directory and loading gives the same relationships in the same order, exactly unless something written does not fit 32 bits |
| `IndexBytes.RangesReadBack` | src/relationship.rs:4277-4298 | ranges that fit 32 bits are read back from twelve bytes each |
| `IndexBytes.DecodeRanges` | src/relationship.rs:4277-4298 | a range section is accepted exactly if it is twelve bytes for each range its row count states |
| `IndexBytes.DecodeDirectory` | src/relationship.rs:4208-4243 | an index directory is accepted exactly if it is the bytes of one that names every kind once, and is read as that one |
| `SnapshotHeader.ParseHeader` | src/snapshot.rs:1238-1283 | a file parses to a header exactly if it begins with the bytes of that header for a file of its length |
| `SectionDirectory.ReadSections` | src/snapshot.rs:511-557 | a directory is accepted exactly if it names every required section once, within the file, clear of the others and with flags its version knows; each section is the part of the file its entry names |
| `SectionDirectory.AcceptedSectionsAreDisjoint` | src/snapshot.rs:1345-1361 | no byte belongs to two sections of an accepted directory |
| `SectionDirectory.SectionDirectory` | src/snapshot.rs:1101-1119 | sections are laid one after another behind the directory |
| `SnapshotEnvelope.Parse` | src/snapshot.rs:495-570 | a file is accepted exactly if it has a header and an acceptable directory, and its footer is the end of the file and, unless that is left to others, the digest of what comes before |
| `SnapshotEnvelope.WriteThenParse` | src/snapshot.rs:1156-1207 | a written file parses, with its digest checked or not: its header and every section come back |
| `SnapshotFile.ReadSymbols` | src/relationship.rs:2632-2665 | the symbol sections are taken for those of the header exactly if their three row counts are its symbol count and their flags name widths |
| `SnapshotFile.ReadIndexes` | src/relationship.rs:4208-4299 | the index sections are accepted exactly if they store a directory of every kind, keys where any are counted, and twelve bytes for each range |
| `SnapshotFile.ReadStore` | src/relationship.rs:1568-1617 | parsed sections are taken for a store exactly if flags, lengths and row counts agree with the header and with one another, and are read as that one store |
| `SnapshotFile.LoadBytes` | src/snapshot.rs:724-770 | whatever bytes are accepted in full validation are a snapshot of what is returned: envelope, schema hash, sections, and a valid store of the relationships its rows stand for; bytes written from acceptable sections are accepted |
| `SnapshotFile.SnapshotIsUnique` | src/relationship.rs:1568-1617 | bytes are a snapshot of one thing only: they determine the header, the schema text and the relationships in their order |
| `SnapshotFile.SaveBytes` | src/snapshot.rs:665-700 | writing succeeds exactly if the schema text is within its limit and everything fits 32 bits; the bytes are then those of acceptable sections of the store |
| `SnapshotFile.FittingIsReady` | src/snapshot.rs:1101-1130 | sections that fit 32 bits can be encoded and make a file whose length and offsets fit 64 bits |
| `SnapshotFile.SaveBytesThenLoad` | src/snapshot.rs:665-770 | saving a store to bytes and loading these gives back its relationships in their order, the schema text, its hash and the revision, exactly unless the schema text is too long or something does not fit 32 bits |
| `NamespaceConfigs.ListingIsLegal` | src/schema/mod.rs:561-597 | whether configurations compile does not depend on the order the hash map lists them in |
| `NamespaceConfigs.CompileConfigs` | src/schema/mod.rs:561-645 | configurations compile exactly if their names are identifiers, relation names differ and every rewrite refers to configured relations |
| `NamespaceConfigs.ResolvesConfigured` | src/schema/mod.rs:437-463 | the compiled schema resolves exactly the configured relations |
| `NamespaceConfigs.ValidationIsResolution` | src/schema/mod.rs:161-173 | a relationship validates exactly if its relation and its userset subject relation are configured |
| `NamespaceConfigs.NamespaceCanGo` | src/lib.rs:278-289 | the relationships allow a namespace to go exactly if none is stored on its objects or grants to its usersets |
| `NamespaceConfigs.DirectSubjectsMayDangle` | src/lib.rs:278-289 | configurations and a relationship that resolves before and after its subject type is deleted |
| `NamespaceConfigs.MergedKeepsLatest` | src/lib.rs:241-244 | added configurations replace those of the same name, the last one given winning, and leave the others |
| `PublishedHistory.TokenAnswer` | src/runtime.rs:61-97 | the answer to any token: wrong datastore, not yet published, expired, a hash that was not issued, or the very snapshot it was issued for |
| `PublishedHistory.IssuedTokenResolves` | src/runtime.rs:61-97 | an issued token resolves to its own snapshot or has expired |
| `PublishedHistory.ResolvedTokenWasIssued` | src/runtime.rs:61-97 | a snapshot is only handed out for the token it was issued with |
| `PublishedHistory.TokensAreStable` | src/runtime.rs:51-97 | between two states of an engine a token keeps its snapshot or expires, and stays expired |
| `PublishedHistory.LatestTokenReadsLatest` | src/runtime.rs:51-97 | reading at the token of the latest snapshot is reading the latest snapshot |
| `Publication.WriterState.TrimHistory` | src/lib.rs:446-448 | the history keeps its newest snapshots up to the retention limit |
| `Publication.WriterState.Append` | src/lib.rs:441-449 | one more sound snapshot at the end of the log keeps the whole writer invariant |
| `Publication.WriterState.PublishSnapshot` | src/lib.rs:425-453 | publishes the next revision, or changes nothing when revisions have run out |
| `Publication.WriterState.RevalidateRelationshipStore` | src/lib.rs:411-423 | rebuilds the same relationships, or fails on one that does not resolve in the new schema |
| `Publication.WriterState.PublishConfigs` | src/lib.rs:245-247 | a schema change succeeds exactly if the configurations compile and every stored relationship resolves in them (exhaustion apart); the relationship set never changes, and a failure changes nothing |
| `Publication.WriterState.ApplyNamespaceConfigs` | src/lib.rs:237-248 | the same for merged configurations |
| `Publication.WriterState.AddDsl` | src/lib.rs:231-235 | the same, with text that must also compile by itself |
| `Publication.WriterState.ReplaceDsl` | src/lib.rs:256-268 | the same for a complete replacement |
| `Publication.WriterState.DeleteNamespace` | src/lib.rs:278-289 | the same for the configurations without the namespace |
| `Publication.WriterState.DeleteRelation` | src/lib.rs:299-321 | the same for the configurations without the relation |
| `Publication.ValidateBatch` | src/lib.rs:337-342 | a batch is refused before anything is applied exactly if some relationship or filter does not resolve |
| `Publication.WriterState.ApplyRelationshipMutations` | src/lib.rs:328-348 | a batch succeeds exactly if it resolves, is admitted and applies (exhaustion apart); every relationship of the new snapshot resolves in its schema, and a failure changes nothing |
| `Publication.CreatesApply` | src/policy.rs:197-209 | creating relationships works exactly if none is there already, be it from earlier in the batch |
| `Publication.WriterState.CreateAll` | src/policy.rs:197-209 | batched creation ends with exactly the given relationships, and fails exactly on a repeated or unresolvable one (exhaustion apart) |
| `Publication.WriterState.ApplyPolicy` | src/policy.rs:187-212 | a policy replaces schema and relationships as a whole, exactly if it fits; on failure writer and readers keep everything, and earlier tokens stay what they were |
| `Publication.WriterState.ReadersSeeTheEnd` | src/lib.rs:460-473 | after any commands, what readers see is the end of the log of everything published, in contiguous revisions |
| `Publication.WriterState.IssuedTokensResolve` | src/runtime.rs:61-97 | every token ever returned resolves to its own snapshot, whose relationships resolve in its own schema, or has expired |
| `PublishedReads.PublishedSnapshotsAreAssured` | src/lib.rs:441-473 | every snapshot ever published whose configurations have no exclusion and no `user` namespace, on a view without tombstones, meets all conditions of exact checks and subject lookups |
| `PublishedReads.PublishedChecksAreMembership` | src/lib.rs:460-473 | on such a snapshot every check answers membership, with no condition on rows |
| `RelationshipText.RelationshipRoundTrip` | src/domain.rs:379-422 | a printed relationship parses back exactly if its text is at most 768 bytes, and is refused as too long otherwise |
| `RelationshipText.AcceptedTextIsCanonical` | src/domain.rs:389-422 | printing any accepted text reproduces it |
| `RelationshipText.TextIsInjective` | src/domain.rs:379-387 | different relationships print differently |
| `RelationshipText.TextLengths` | src/domain.rs:280-301 | a direct subject always fits the limit; a userset subject prints to at most 773 bytes |
| `RelationshipText.LongestTextIsRejected` | src/domain.rs:389-397 | a valid relationship whose text is refused |
| `PolicyText.RelationshipFiles` | src/policy.rs:224-249 | one file per resource type in order of the types, each holding the sorted texts of its relationships |
| `PolicyText.ParseRelationships` | src/policy.rs:251-263 | the files are read exactly if every statement parses, comments and blank lines aside |
| `PolicyText.ExportThenImport` | src/policy.rs:224-263 | exporting and reading back gives the same multiset of relationships exactly if every text fits the limit |
| `PolicyText.ExportIsCanonical` | src/policy.rs:224-249 | the export depends only on which relationships there are, not on their order |

## Left out

- LookupResources.Lookup: completeness is stated for acyclic data on which the direct test is exact, because on cyclic data its verifications use remembered denials, which `MemoGaps.RememberedDenialIsWrong` shows to be wrong; soundness needs no acyclicity on exclusion-free schemas. `Exhaustive` is sufficient only; the exact condition, `Reachable`, assumes that no row can be pruned and no rule is contested, since pruning depends on the sampled rows and their order.
- Evaluator.EvaluationContext.Check: with a memo on cyclic data denials are not promised to be right, because they are not; which answer is given is stated exactly, allowances are right on exclusion-free schemas, and everything is right on acyclic data, a sufficient condition. A memoised check may answer where the memo-free one runs out of depth, since a hit is not charged to its parent; the converse is proved.
- RelationshipStore.IndexedRelationshipStore.ApplyMutations: nothing is promised about a store with a sorted symbol lookup after a single mutation fails for want of capacity, since the interner may then be unusable; `Interner.IdentifierInterner.Intern` says when.
- SnapshotFile.LoadBytes: full validation of the full index profile in format version 3; the schema text is not compiled, its hash being that of a given function, and the text of symbols is not checked to be UTF-8.
- Publication.WriterState.ApplyPolicy: schema text arrives parsed, since the grammar file is not part of this model.
- Seven posting tables: modelled as one table whose keys carry the kind of index, in the order of the kinds; the index profile is always the full one, except that a decoded kind that is not required is proved empty.
- Planner recursion: the set of relations being visited is passed by value instead of being changed and restored.
- Stored rows point at interned symbols by construction: the error paths for unresolvable stored identifiers cannot occur.
- Text is ASCII: one character is one byte, and UTF-8 validation and Unicode trimming are not modelled; `SnapshotFile.SaveBytes` asks for symbol bytes of one byte a character.
- The fixed-width V2 layout, the Latency load profile and the trusted fast load of indexes.
- Loading an engine from a snapshot artifact; its canonical schema text, and that it compiles to the schema it was printed from.
- Token text, hexadecimal identifiers and the computation of the schema hash.
- Expansion trees, the caches of pure results in the lookups, and per-request plumbing of the public API.
- Threads and atomic swaps: publication is one assignment of the state readers load.
- Files, compression, the choice of digest, serialisation attributes, tracing, counters, histograms and timers.
