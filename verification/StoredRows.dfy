/** Stored rows and the relationships they stand for: index keys, filters in names and in symbols, and
    why scanning one posting list is as good as scanning every row. */
module StoredRows {
  import opened Vocabulary
  import opened Interner
  import opened IdentityIndex
  import opened PostingIndex

  /** A resource-side filter. */
  datatype RelationshipFilter = RelationshipFilter(resourceType: string, resourceId: Option<string>, relation: Option<string>,
                                                   subject: Option<SubjectFilter>, limit: nat)

  predicate MatchesResource(relationship: Relationship, filter: RelationshipFilter) {
    && relationship.resource.namespace == filter.resourceType
    && (filter.resourceId.Some? ==> relationship.resource.id == filter.resourceId.value)
    && (filter.relation.Some? ==> relationship.relation == filter.relation.value)
    && (filter.subject.Some? ==> MatchesSubject(relationship.subject, filter.subject.value))
  }

  function Matching(filter: RelationshipFilter): Relationship -> bool {
    (x: Relationship) => MatchesResource(x, filter)
  }

  function MatchingSubject(filter: SubjectFilter): Relationship -> bool {
    (x: Relationship) => MatchesSubject(x.subject, filter)
  }

  // ---------------------------------------------------------------- index keys

  datatype IndexKey =
    | ByResource(resourceType: SymbolId, resourceId: SymbolId, relation: SymbolId)
    | ByResourceObject(resourceType: SymbolId, resourceId: SymbolId)
    | ByResourceTypeRelation(resourceType: SymbolId, relation: SymbolId)
    | ByResourceType(resourceType: SymbolId)
    | BySubject(subjectType: SymbolId, subjectId: SymbolId, subjectRelation: Option<SymbolId>)
    | BySubjectTypeRelation(subjectType: SymbolId, relation: SymbolId)
    | BySubjectType(subjectType: SymbolId)

  /** The keys a row is posted under. A userset subject is also posted without its relation. */
  function KeysOf(row: Row): seq<IndexKey> {
    [ByResource(row.resourceType, row.resourceId, row.relation),
     ByResourceObject(row.resourceType, row.resourceId),
     ByResourceTypeRelation(row.resourceType, row.relation),
     ByResourceType(row.resourceType)] +
    (if row.subjectRelation.Some? then [BySubject(row.subjectType, row.subjectId, row.subjectRelation)] else []) +
    [BySubject(row.subjectType, row.subjectId, None)] +
    (if row.subjectRelation.Some? then [BySubjectTypeRelation(row.subjectType, row.subjectRelation.value)] else []) +
    [BySubjectType(row.subjectType)]
  }

  function KeyFields(key: IndexKey): (nat, nat, nat, nat) {
    match key
    case ByResource(t, id, relation) => (0, t, id, relation)
    case ByResourceObject(t, id) => (1, t, id, 0)
    case ByResourceTypeRelation(t, relation) => (2, t, relation, 0)
    case ByResourceType(t) => (3, t, 0, 0)
    case BySubject(t, id, relation) => (4, t, id, if relation.Some? then relation.value + 1 else 0)
    case BySubjectTypeRelation(t, relation) => (5, t, relation, 0)
    case BySubjectType(t) => (6, t, 0, 0)
  }

  predicate KeyLess(left: IndexKey, right: IndexKey) {
    var (a, b, c, d) := KeyFields(left);
    var (p, q, r, s) := KeyFields(right);
    a < p || (a == p && (b < q || (b == q && (c < r || (c == r && d < s)))))
  }

  lemma KeysAreOrdered()
    ensures StrictOrder(KeyLess)
  {
    forall left: IndexKey, right: IndexKey | left != right ensures KeyLess(left, right) || KeyLess(right, left) {
      assert KeyFields(left) != KeyFields(right);
    }
  }

  lemma KeysAreDistinct(row: Row)
    ensures forall i, j :: 0 <= i < j < |KeysOf(row)| ==> KeysOf(row)[i] != KeysOf(row)[j]
  {
  }

  // ---------------------------------------------------------------- what rows stand for

  predicate Resolves(row: Row, names: nat) {
    && row.resourceType < names && row.resourceId < names && row.relation < names
    && row.subjectType < names && row.subjectId < names
    && (row.subjectRelation.Some? ==> row.subjectRelation.value < names)
  }

  ghost predicate AllResolve(rows: seq<Row>, names: nat) {
    forall i :: 0 <= i < |rows| ==> Resolves(rows[i], names)
  }

  function ToRelationship(names: seq<string>, row: Row): Relationship
    requires Resolves(row, |names|)
  {
    var entity := Object(names[row.subjectType], names[row.subjectId]);
    Relationship(Object(names[row.resourceType], names[row.resourceId]), names[row.relation],
                 match row.subjectRelation
                 case Some(relation) => UsersetSubject(entity, names[relation])
                 case None => DirectSubject(entity))
  }

  /** Different rows are different relationships. */
  lemma RowsAreRelationships(names: seq<string>, left: Row, right: Row)
    requires NoRepeats(names) && Resolves(left, |names|) && Resolves(right, |names|)
    ensures ToRelationship(names, left) == ToRelationship(names, right) <==> left == right
  {
  }

  /** The relationships of the live rows among the first `n`, in row order. */
  ghost function LiveRelationships(names: seq<string>, rows: seq<Row>, alive: set<RowId>, n: nat): seq<Relationship>
    requires n <= |rows| && AllResolve(rows, |names|)
  {
    if n == 0 then []
    else LiveRelationships(names, rows, alive, n - 1) + if n - 1 in alive then [ToRelationship(names, rows[n - 1])] else []
  }

  lemma {:induction false} LiveMembers(names: seq<string>, rows: seq<Row>, alive: set<RowId>, n: nat, relationship: Relationship)
    requires n <= |rows| && AllResolve(rows, |names|)
    ensures relationship in LiveRelationships(names, rows, alive, n)
            <==> exists i: RowId :: i < n && i in alive && ToRelationship(names, rows[i]) == relationship
  {
    if n > 0 {
      LiveMembers(names, rows, alive, n - 1, relationship);
    }
  }

  /** All identifiers of a relationship are interned. */
  ghost predicate KnownIn(names: seq<string>, relationship: Relationship) {
    && relationship.resource.namespace in names && relationship.resource.id in names && relationship.relation in names
    && relationship.subject.entity.namespace in names && relationship.subject.entity.id in names
    && (relationship.subject.UsersetSubject? ==> relationship.subject.relation in names)
  }

  lemma LiveIsKnown(names: seq<string>, rows: seq<Row>, alive: set<RowId>, n: nat, relationship: Relationship)
    requires n <= |rows| && AllResolve(rows, |names|)
    requires relationship in LiveRelationships(names, rows, alive, n)
    ensures KnownIn(names, relationship)
  {
    LiveMembers(names, rows, alive, n, relationship);
  }

  /** Only what is alive, and what the symbols mean, matters. */
  lemma {:induction false} LiveSame(names: seq<string>, rows: seq<Row>, alive: set<RowId>,
                                    names': seq<string>, rows': seq<Row>, alive': set<RowId>, n: nat)
    requires n <= |rows| && n <= |rows'| && AllResolve(rows, |names|) && AllResolve(rows', |names'|)
    requires forall i: RowId :: i < n ==> (i in alive <==> i in alive') && ToRelationship(names, rows[i]) == ToRelationship(names', rows'[i])
    ensures LiveRelationships(names, rows, alive, n) == LiveRelationships(names', rows', alive', n)
  {
    hide ToRelationship;
    if n > 0 {
      LiveSame(names, rows, alive, names', rows', alive', n - 1);
    }
  }

  lemma OneMoreLive(names: seq<string>, rows: seq<Row>, alive: set<RowId>, row: Row)
    requires AllResolve(rows, |names|) && Resolves(row, |names|) && forall i: RowId :: i in alive ==> i < |rows|
    ensures AllResolve(rows + [row], |names|)
    ensures LiveRelationships(names, rows + [row], alive + {|rows|}, |rows| + 1)
            == LiveRelationships(names, rows, alive, |rows|) + [ToRelationship(names, row)]
  {
    hide ToRelationship, Resolves;
    LiveSame(names, rows, alive, names, rows + [row], alive + {|rows|}, |rows|);
  }

  /** Interning more identifiers changes nothing that is stored. */
  lemma GrownNamesKeep(names: seq<string>, grown: seq<string>, rows: seq<Row>, alive: set<RowId>, n: nat)
    requires names <= grown && n <= |rows| && AllResolve(rows, |names|)
    ensures AllResolve(rows, |grown|)
    ensures LiveRelationships(names, rows, alive, n) == LiveRelationships(grown, rows, alive, n)
  {
    LiveSame(names, rows, alive, grown, rows, alive, n);
  }

  lemma AbsentRowDiffers(names: seq<string>, rows: seq<Row>, alive: set<RowId>, row: Row, relationship: Relationship)
    requires AllResolve(rows, |names|) && Resolves(row, |names|) && ToRelationship(names, row) == relationship
    requires relationship !in LiveRelationships(names, rows, alive, |rows|)
    ensures forall i: RowId :: i in alive && i < |rows| ==> rows[i] != row
  {
    LiveMembers(names, rows, alive, |rows|, relationship);
  }

  /** A stored relationship sits in exactly the live rows equal to its symbols. */
  lemma LiveRowOf(names: seq<string>, rows: seq<Row>, alive: set<RowId>, row: Row)
    requires NoRepeats(names) && AllResolve(rows, |names|) && Resolves(row, |names|)
    ensures ToRelationship(names, row) in LiveRelationships(names, rows, alive, |rows|)
            <==> exists i: RowId :: i in alive && i < |rows| && rows[i] == row
  {
    LiveMembers(names, rows, alive, |rows|, ToRelationship(names, row));
    forall i: RowId | i < |rows| && i in alive && ToRelationship(names, rows[i]) == ToRelationship(names, row) ensures rows[i] == row {
      RowsAreRelationships(names, rows[i], row);
    }
  }

  ghost predicate AllDiffer(rows: seq<Row>, alive: set<RowId>) {
    forall i: RowId, j: RowId :: i in alive && j in alive && i < |rows| && j < |rows| && i != j ==> rows[i] != rows[j]
  }

  /** Live rows that differ give pairwise different relationships. */
  lemma {:induction false} LiveDistinct(names: seq<string>, rows: seq<Row>, alive: set<RowId>, n: nat)
    requires n <= |rows| && AllResolve(rows, |names|) && NoRepeats(names) && AllDiffer(rows, alive)
    ensures NoRepeatedRelationships(LiveRelationships(names, rows, alive, n))
  {
    if n > 0 {
      LiveDistinct(names, rows, alive, n - 1);
      if n - 1 in alive {
        var last := ToRelationship(names, rows[n - 1]);
        LiveMembers(names, rows, alive, n - 1, last);
        forall i: RowId | i < n - 1 && i in alive ensures ToRelationship(names, rows[i]) != last {
          RowsAreRelationships(names, rows[i], rows[n - 1]);
        }
      }
    }
  }

  ghost predicate NoRepeatedRelationships(items: seq<Relationship>) {
    forall i, j :: 0 <= i < j < |items| ==> items[i] != items[j]
  }

  /** Killing the row of a relationship takes just that relationship out. */
  lemma {:induction false} LiveWithout(names: seq<string>, rows: seq<Row>, alive: set<RowId>, dead: RowId, n: nat)
    requires n <= |rows| && AllResolve(rows, |names|) && NoRepeats(names) && AllDiffer(rows, alive)
    requires dead < |rows| && dead in alive
    ensures LiveRelationships(names, rows, alive - {dead}, n)
            == Select(LiveRelationships(names, rows, alive, n), (x: Relationship) => x != ToRelationship(names, rows[dead]))
  {
    hide ToRelationship;
    var keep := (x: Relationship) => x != ToRelationship(names, rows[dead]);
    if n > 0 {
      LiveWithout(names, rows, alive, dead, n - 1);
      RowsAreRelationships(names, rows[n - 1], rows[dead]);
      SelectConcat(LiveRelationships(names, rows, alive, n - 1),
                   if n - 1 in alive then [ToRelationship(names, rows[n - 1])] else [], keep);
    }
  }

  // ---------------------------------------------------------------- posting lists

  /** The rows among the first `n` that have a key, in row order. */
  ghost function KeyRows(rows: seq<Row>, key: IndexKey, n: nat): seq<RowId>
    requires n <= |rows|
  {
    if n == 0 then [] else KeyRows(rows, key, n - 1) + if key in KeysOf(rows[n - 1]) then [n - 1] else []
  }

  lemma {:induction false} KeyRowsSame(rows: seq<Row>, rows': seq<Row>, key: IndexKey, n: nat)
    requires n <= |rows| && rows <= rows'
    ensures KeyRows(rows, key, n) == KeyRows(rows', key, n)
  {
    if n > 0 {
      KeyRowsSame(rows, rows', key, n - 1);
    }
  }

  /** A row at the end joins the lists of its keys. */
  lemma OneMoreRow(rows: seq<Row>, row: Row)
    ensures forall key: IndexKey ::
      KeyRows(rows + [row], key, |rows| + 1) == KeyRows(rows, key, |rows|) + if key in KeysOf(row) then [|rows|] else []
  {
    hide KeysOf;
    forall key: IndexKey
      ensures KeyRows(rows + [row], key, |rows| + 1) == KeyRows(rows, key, |rows|) + if key in KeysOf(row) then [|rows|] else []
    {
      KeyRowsSame(rows, rows + [row], key, |rows|);
    }
  }

  lemma OneMoreDiffers(rows: seq<Row>, alive: set<RowId>, row: Row)
    requires AllDiffer(rows, alive) && forall i: RowId :: i in alive ==> i < |rows| && rows[i] != row
    ensures AllDiffer(rows + [row], alive + {|rows|})
  {
  }

  lemma {:induction false} KeyRowsMembers(rows: seq<Row>, key: IndexKey, n: nat)
    requires n <= |rows|
    ensures forall i: RowId :: i in KeyRows(rows, key, n) <==> i < n && key in KeysOf(rows[i])
  {
    hide KeysOf;
    if n > 0 {
      KeyRowsMembers(rows, key, n - 1);
    }
  }

  ghost predicate InRange(ids: seq<RowId>, n: nat) {
    forall k :: 0 <= k < |ids| ==> ids[k] < n
  }

  lemma {:induction false} KeyRowsInRange(rows: seq<Row>, key: IndexKey, n: nat)
    requires n <= |rows|
    ensures InRange(KeyRows(rows, key, n), n)
  {
    if n > 0 {
      KeyRowsInRange(rows, key, n - 1);
    }
  }

  ghost function RelationshipsAt(names: seq<string>, rows: seq<Row>, ids: seq<RowId>): seq<Relationship>
    requires AllResolve(rows, |names|) && InRange(ids, |rows|)
  {
    seq(|ids|, i requires 0 <= i < |ids| => ToRelationship(names, rows[ids[i]]))
  }

  lemma NothingAt(names: seq<string>, rows: seq<Row>)
    requires AllResolve(rows, |names|)
    ensures RelationshipsAt(names, rows, []) == []
  {
  }

  lemma OneMoreAt(names: seq<string>, rows: seq<Row>, ids: seq<RowId>, id: RowId)
    requires AllResolve(rows, |names|) && InRange(ids, |rows|) && id < |rows|
    ensures InRange(ids + [id], |rows|)
    ensures RelationshipsAt(names, rows, ids + [id]) == RelationshipsAt(names, rows, ids) + [ToRelationship(names, rows[id])]
  {
    hide ToRelationship;
    RelationshipsAtConcat(names, rows, ids, [id]);
  }

  lemma RelationshipsAtConcat(names: seq<string>, rows: seq<Row>, ids: seq<RowId>, more: seq<RowId>)
    requires AllResolve(rows, |names|) && InRange(ids, |rows|) && InRange(more, |rows|)
    ensures RelationshipsAt(names, rows, ids + more) == RelationshipsAt(names, rows, ids) + RelationshipsAt(names, rows, more)
  {
  }

  lemma {:induction false} SelectedInRange(ids: seq<RowId>, hit: RowId -> bool, n: nat)
    requires InRange(ids, n)
    ensures InRange(Select<RowId>(ids, hit), n)
  {
    if ids != [] {
      SelectedInRange(ids[1..], hit, n);
    }
  }

  /** `hit` picks the live rows whose relationships `keep` accepts, and all of them have `key`. */
  ghost predicate HitsAreKept(names: seq<string>, rows: seq<Row>, alive: set<RowId>, key: IndexKey, n: nat,
                              hit: RowId -> bool, keep: Relationship -> bool)
    requires n <= |rows| && AllResolve(rows, |names|)
  {
    forall i: RowId :: i < n ==>
      && (hit(i) <==> i in alive && keep(ToRelationship(names, rows[i])))
      && (hit(i) ==> key in KeysOf(rows[i]))
  }

  /** Filtering the posting list of a key that every match has yields what filtering all live rows yields. */
  lemma {:induction false} PostingScanIsLinearScan(names: seq<string>, rows: seq<Row>, alive: set<RowId>, key: IndexKey, n: nat,
                                                   hit: RowId -> bool, keep: Relationship -> bool)
    requires n <= |rows| && AllResolve(rows, |names|)
    requires HitsAreKept(names, rows, alive, key, n, hit, keep)
    ensures InRange(Select<RowId>(KeyRows(rows, key, n), hit), |rows|)
    ensures RelationshipsAt(names, rows, Select<RowId>(KeyRows(rows, key, n), hit)) == Select(LiveRelationships(names, rows, alive, n), keep)
  {
    hide ToRelationship, KeysOf, AllResolve;
    if n == 0 {
      return;
    }
    PostingScanIsLinearScan(names, rows, alive, key, n - 1, hit, keep);
    PostingScanStep(names, rows, alive, key, n, hit, keep);
  }

  lemma PostingScanStep(names: seq<string>, rows: seq<Row>, alive: set<RowId>, key: IndexKey, n: nat, hit: RowId -> bool, keep: Relationship -> bool)
    requires 0 < n <= |rows| && AllResolve(rows, |names|)
    requires HitsAreKept(names, rows, alive, key, n, hit, keep)
    requires InRange(Select<RowId>(KeyRows(rows, key, n - 1), hit), |rows|)
    requires RelationshipsAt(names, rows, Select<RowId>(KeyRows(rows, key, n - 1), hit))
             == Select(LiveRelationships(names, rows, alive, n - 1), keep)
    ensures InRange(Select<RowId>(KeyRows(rows, key, n), hit), |rows|)
    ensures RelationshipsAt(names, rows, Select<RowId>(KeyRows(rows, key, n), hit)) == Select(LiveRelationships(names, rows, alive, n), keep)
  {
    hide ToRelationship, KeysOf, Select;
    var last := ToRelationship(names, rows[n - 1]);
    var posted := key in KeysOf(rows[n - 1]);
    var hits := Select<RowId>(KeyRows(rows, key, n - 1), hit);
    SelectConcat<RowId>(KeyRows(rows, key, n - 1), if posted then [n - 1] else [], hit);
    SelectConcat(LiveRelationships(names, rows, alive, n - 1), if n - 1 in alive then [last] else [], keep);
    OneSelected<RowId>(n - 1, posted, hit);
    OneSelected(last, n - 1 in alive, keep);
    RelationshipsAtConcat(names, rows, hits, if hit(n - 1) then [n - 1] else []);
  }

  lemma OneSelected<T>(item: T, present: bool, keep: T -> bool)
    ensures Select(if present then [item] else [], keep) == if present && keep(item) then [item] else []
  {
  }

  // ---------------------------------------------------------------- filters in symbols

  datatype SubjectMatcher = SubjectMatcher(subjectType: SymbolId, subjectId: Option<SymbolId>, relation: Option<SymbolId>)

  datatype ResourceMatcher = ResourceMatcher(resourceType: SymbolId, resourceId: Option<SymbolId>, relation: Option<SymbolId>,
                                             subject: Option<SubjectMatcher>)

  predicate RowMatchesSubject(row: Row, matcher: SubjectMatcher) {
    && row.subjectType == matcher.subjectType
    && (matcher.subjectId.Some? ==> row.subjectId == matcher.subjectId.value)
    && (matcher.relation.Some? ==> row.subjectRelation == matcher.relation)
  }

  predicate RowMatchesResource(row: Row, matcher: ResourceMatcher) {
    && row.resourceType == matcher.resourceType
    && (matcher.resourceId.Some? ==> row.resourceId == matcher.resourceId.value)
    && (matcher.relation.Some? ==> row.relation == matcher.relation.value)
    && (matcher.subject.Some? ==> RowMatchesSubject(row, matcher.subject.value))
  }

  /** `id` is the symbol of `value`, where there is one to be named. */
  ghost predicate Names(names: seq<string>, id: Option<SymbolId>, value: Option<string>) {
    id.Some? == value.Some? && (id.Some? ==> id.value < |names| && names[id.value] == value.value)
  }

  ghost predicate SubjectInSymbols(names: seq<string>, matcher: SubjectMatcher, filter: SubjectFilter) {
    && Names(names, Some(matcher.subjectType), Some(filter.subjectType))
    && Names(names, matcher.subjectId, filter.subjectId)
    && Names(names, matcher.relation, filter.relation)
  }

  ghost predicate ResourceInSymbols(names: seq<string>, matcher: ResourceMatcher, filter: RelationshipFilter) {
    && Names(names, Some(matcher.resourceType), Some(filter.resourceType))
    && Names(names, matcher.resourceId, filter.resourceId)
    && Names(names, matcher.relation, filter.relation)
    && matcher.subject.Some? == filter.subject.Some?
    && (matcher.subject.Some? ==> SubjectInSymbols(names, matcher.subject.value, filter.subject.value))
  }

  lemma SubjectMatchesAlike(names: seq<string>, row: Row, matcher: SubjectMatcher, filter: SubjectFilter)
    requires NoRepeats(names) && Resolves(row, |names|) && SubjectInSymbols(names, matcher, filter)
    ensures RowMatchesSubject(row, matcher) <==> MatchesSubject(ToRelationship(names, row).subject, filter)
  {
  }

  lemma ResourceMatchesAlike(names: seq<string>, row: Row, matcher: ResourceMatcher, filter: RelationshipFilter)
    requires NoRepeats(names) && Resolves(row, |names|) && ResourceInSymbols(names, matcher, filter)
    ensures RowMatchesResource(row, matcher) <==> MatchesResource(ToRelationship(names, row), filter)
  {
    if matcher.subject.Some? {
      SubjectMatchesAlike(names, row, matcher.subject.value, filter.subject.value);
    }
  }

  function ResourceKey(matcher: ResourceMatcher): IndexKey {
    match (matcher.resourceId, matcher.relation)
    case (Some(id), Some(relation)) => ByResource(matcher.resourceType, id, relation)
    case (Some(id), None) => ByResourceObject(matcher.resourceType, id)
    case (None, Some(relation)) => ByResourceTypeRelation(matcher.resourceType, relation)
    case (None, None) => ByResourceType(matcher.resourceType)
  }

  function SubjectKey(matcher: SubjectMatcher): IndexKey {
    match (matcher.subjectId, matcher.relation)
    case (Some(id), relation) => BySubject(matcher.subjectType, id, relation)
    case (None, Some(relation)) => BySubjectTypeRelation(matcher.subjectType, relation)
    case (None, None) => BySubjectType(matcher.subjectType)
  }

  /** Every match is posted under the key its matcher picks. */
  lemma MatchesHaveTheKey(row: Row)
    ensures forall matcher: ResourceMatcher :: RowMatchesResource(row, matcher) ==> ResourceKey(matcher) in KeysOf(row)
    ensures forall matcher: SubjectMatcher :: RowMatchesSubject(row, matcher) ==> SubjectKey(matcher) in KeysOf(row)
  {
    var keys := KeysOf(row);
    assert keys[0] == ByResource(row.resourceType, row.resourceId, row.relation);
    assert keys[1] == ByResourceObject(row.resourceType, row.resourceId);
    assert keys[2] == ByResourceTypeRelation(row.resourceType, row.relation);
    assert keys[3] == ByResourceType(row.resourceType);
    assert keys[|keys| - 1] == BySubjectType(row.subjectType);
    assert BySubject(row.subjectType, row.subjectId, row.subjectRelation) in keys;
    assert BySubject(row.subjectType, row.subjectId, None) in keys;
    assert row.subjectRelation.Some? ==> BySubjectTypeRelation(row.subjectType, row.subjectRelation.value) in keys;
  }

  /** The key of a subject filter is posted for exactly the rows that match it. */
  lemma SubjectKeyIsMatch(row: Row, matcher: SubjectMatcher)
    ensures SubjectKey(matcher) in KeysOf(row) <==> RowMatchesSubject(row, matcher)
  {
    MatchesHaveTheKey(row);
  }

  /** Some row, dead or alive, names a subject the filter matches. */
  ghost predicate SomeRowNames(names: seq<string>, rows: seq<Row>, filter: SubjectFilter)
    requires AllResolve(rows, |names|)
  {
    exists i :: 0 <= i < |rows| && MatchesSubject(ToRelationship(names, rows[i]).subject, filter)
  }

  /** The posting list of a filter's key is empty exactly if no row names a subject the filter matches. */
  lemma KeyFindsNamed(names: seq<string>, rows: seq<Row>, matcher: SubjectMatcher, filter: SubjectFilter)
    requires NoRepeats(names) && AllResolve(rows, |names|) && SubjectInSymbols(names, matcher, filter)
    ensures KeyRows(rows, SubjectKey(matcher), |rows|) != [] <==> SomeRowNames(names, rows, filter)
  {
    hide KeysOf, RowMatchesSubject, SubjectKey, ToRelationship, MatchesSubject, SubjectInSymbols, NoRepeats;
    KeyRowsMembers(rows, SubjectKey(matcher), |rows|);
    forall i | 0 <= i < |rows|
      ensures SubjectKey(matcher) in KeysOf(rows[i]) <==> MatchesSubject(ToRelationship(names, rows[i]).subject, filter)
    {
      SubjectKeyIsMatch(rows[i], matcher);
      SubjectMatchesAlike(names, rows[i], matcher, filter);
    }
    var listed := KeyRows(rows, SubjectKey(matcher), |rows|);
    if listed != [] {
      assert listed[0] in listed;
    }
  }

  lemma LiveMatchIsNamed(names: seq<string>, rows: seq<Row>, alive: set<RowId>, filter: SubjectFilter)
    requires AllResolve(rows, |names|)
    ensures forall x :: x in LiveRelationships(names, rows, alive, |rows|) && MatchesSubject(x.subject, filter) ==> SomeRowNames(names, rows, filter)
  {
    forall x | x in LiveRelationships(names, rows, alive, |rows|) && MatchesSubject(x.subject, filter) ensures SomeRowNames(names, rows, filter) {
      LiveMembers(names, rows, alive, |rows|, x);
    }
  }

  /** Either kind of filter, in symbols. */
  datatype Matcher = OfResource(resource: ResourceMatcher) | OfSubject(subject: SubjectMatcher)

  predicate RowMatches(row: Row, matcher: Matcher) {
    match matcher
    case OfResource(resource) => RowMatchesResource(row, resource)
    case OfSubject(subject) => RowMatchesSubject(row, subject)
  }

  function MatcherKey(matcher: Matcher): IndexKey {
    match matcher
    case OfResource(resource) => ResourceKey(resource)
    case OfSubject(subject) => SubjectKey(subject)
  }

  ghost function Hit(rows: seq<Row>, alive: set<RowId>, matcher: Matcher): RowId -> bool {
    (i: RowId) => i < |rows| && i in alive && RowMatches(rows[i], matcher)
  }

  /** In names, the matcher accepts what `keep` accepts. */
  ghost predicate MatcherMeans(names: seq<string>, rows: seq<Row>, matcher: Matcher, keep: Relationship -> bool)
    requires AllResolve(rows, |names|)
  {
    forall i :: 0 <= i < |rows| ==> (RowMatches(rows[i], matcher) <==> keep(ToRelationship(names, rows[i])))
  }

  /** A query through the posting list its matcher picks is a linear scan of the contents, cut at the limit. */
  lemma PostedQueryIsLinear(names: seq<string>, rows: seq<Row>, alive: set<RowId>, matcher: Matcher, keep: Relationship -> bool, limit: QueryLimit)
    requires AllResolve(rows, |names|) && MatcherMeans(names, rows, matcher, keep)
    ensures InRange(Take(Select<RowId>(KeyRows(rows, MatcherKey(matcher), |rows|), Hit(rows, alive, matcher)), limit), |rows|)
    ensures RelationshipsAt(names, rows, Take(Select<RowId>(KeyRows(rows, MatcherKey(matcher), |rows|), Hit(rows, alive, matcher)), limit))
            == Take(Select(LiveRelationships(names, rows, alive, |rows|), keep), limit)
  {
    hide KeysOf, ToRelationship, Select, RowMatchesResource, RowMatchesSubject, ResourceKey, SubjectKey;
    var key, hit := MatcherKey(matcher), Hit(rows, alive, matcher);
    forall i: RowId | i < |rows| && hit(i) ensures key in KeysOf(rows[i]) {
      MatchesHaveTheKey(rows[i]);
    }
    PostingScanIsLinearScan(names, rows, alive, key, |rows|, hit, keep);
  }
}
