/** The vocabulary every component shares: objects, subjects, relationships, and the
    rows a published relationship view hands to its readers. */
module Vocabulary {

  datatype Option<+T> = None | Some(value: T)

  datatype Result<+T, +E> = Ok(value: T) | Err(error: E) {
    predicate IsFailure() { Err? }
    function PropagateFailure<U>(): Result<U, E>
      requires Err?
    {
      Err(error)
    }
    function Extract(): T
      requires Ok?
    {
      value
    }
  }

  const USER_TYPE := "user"

  /** An object reference `namespace:id`. */
  datatype Object = Object(namespace: string, id: string)

  /** The subject a request asks about. */
  datatype User = UserId(userId: string) | Userset(entity: Object, relation: string)

  /** The subject half of a stored relationship. */
  datatype SubjectRef =
    | DirectSubject(entity: Object)
    | UsersetSubject(entity: Object, relation: string)

  datatype Relationship = Relationship(resource: Object, relation: string, subject: SubjectRef)

  datatype SubjectFilter = SubjectFilter(subjectType: string, subjectId: Option<string>, relation: Option<string>)

  /** The filter a request subject is turned into: a plain user carries no relation constraint. */
  function FilterOf(user: User): SubjectFilter {
    match user
    case UserId(id) => SubjectFilter(USER_TYPE, Some(id), None)
    case Userset(entity, relation) => SubjectFilter(entity.namespace, Some(entity.id), Some(relation))
  }

  /** Subject-side matching. A filter without a relation also matches userset subjects. */
  predicate MatchesSubject(subject: SubjectRef, filter: SubjectFilter) {
    && subject.entity.namespace == filter.subjectType
    && (filter.subjectId.Some? ==> subject.entity.id == filter.subjectId.value)
    && (filter.relation.Some? ==> subject.UsersetSubject? && subject.relation == filter.relation.value)
  }

  datatype QueryLimit = Unbounded | AtMost(count: nat)

  function Take<T>(items: seq<T>, limit: QueryLimit): seq<T> {
    if limit.AtMost? && limit.count < |items| then items[..limit.count] else items
  }

  /** The elements of `items` satisfying `keep`, in order. */
  function Select<T>(items: seq<T>, keep: T -> bool): seq<T> {
    if items == [] then []
    else if keep(items[0]) then [items[0]] + Select(items[1..], keep)
    else Select(items[1..], keep)
  }

  lemma {:induction false} SelectMembers<T>(items: seq<T>, keep: T -> bool)
    ensures |Select(items, keep)| <= |items|
    ensures forall x :: x in Select(items, keep) <==> x in items && keep(x)
  {
    if items != [] {
      SelectMembers(items[1..], keep);
      assert items == [items[0]] + items[1..];
    }
  }

  lemma {:induction false} SelectConcat<T>(left: seq<T>, right: seq<T>, keep: T -> bool)
    ensures Select(left + right, keep) == Select(left, keep) + Select(right, keep)
  {
    if left == [] {
      assert left + right == right;
    } else {
      SelectConcat(left[1..], right, keep);
      assert (left + right)[1..] == left[1..] + right;
    }
  }

  lemma {:induction false} SubsetIsSmaller<T>(part: set<T>, whole: set<T>)
    requires part <= whole
    ensures |part| <= |whole|
  {
    assert whole == part + (whole - part);
  }

  lemma {:induction false} NoneSelected<T>(items: seq<T>, keep: T -> bool)
    requires forall x :: x in items ==> !keep(x)
    ensures Select(items, keep) == []
  {
    if items != [] {
      NoneSelected(items[1..], keep);
    }
  }

  lemma {:induction false} AllSelected<T>(items: seq<T>, keep: T -> bool)
    requires forall x :: x in items ==> keep(x)
    ensures Select(items, keep) == items
  {
    if items != [] {
      AllSelected(items[1..], keep);
    }
  }

  lemma SelectNext<T>(items: seq<T>, i: nat, keep: T -> bool)
    requires i < |items|
    ensures Select(items[..i + 1], keep) == Select(items[..i], keep) + if keep(items[i]) then [items[i]] else []
  {
    assert items[..i + 1] == items[..i] + [items[i]];
    SelectConcat(items[..i], [items[i]], keep);
  }

  /** Once `count` elements have been selected, the rest cannot matter to the first `count`. */
  lemma StoppedSelection<T>(items: seq<T>, i: nat, keep: T -> bool, count: nat)
    requires i <= |items| && |Select(items[..i], keep)| == count
    ensures Take(Select(items, keep), AtMost(count)) == Select(items[..i], keep)
  {
    assert items == items[..i] + items[i..];
    SelectConcat(items[..i], items[i..], keep);
  }

  /** A published view as its readers see it: the rows inserted since the checkpoint, the
      checkpoint's rows, and the tombstones laid over the checkpoint. */
  datatype Rows = Rows(inserted: seq<Relationship>, checkpoint: seq<Relationship>, deleted: set<Relationship>)

  /** The relationships the view stands for. */
  ghost predicate Live(rows: Rows, relationship: Relationship) {
    relationship in rows.inserted || (relationship in rows.checkpoint && relationship !in rows.deleted)
  }

  /** A segment-by-segment query: the limit is consumed inside each segment, and tombstones are
      removed only afterwards. */
  function Query(rows: Rows, keep: Relationship -> bool, limit: QueryLimit): seq<Relationship> {
    Take(Select(rows.inserted, keep), limit) +
    Select(Take(Select(rows.checkpoint, keep), limit), relationship => relationship !in rows.deleted)
  }

  /** An unbounded query yields exactly the live rows that match. */
  lemma QueryIsLive(rows: Rows, keep: Relationship -> bool)
    ensures forall x :: x in Query(rows, keep, Unbounded) <==> Live(rows, x) && keep(x)
  {
    SelectMembers(rows.inserted, keep);
    SelectMembers(rows.checkpoint, keep);
    SelectMembers(Select(rows.checkpoint, keep), relationship => relationship !in rows.deleted);
  }

  /** Whatever the limit, every yielded row is a live match. */
  lemma QueryIsSound(rows: Rows, keep: Relationship -> bool, limit: QueryLimit)
    ensures forall x :: x in Query(rows, keep, limit) ==> Live(rows, x) && keep(x)
  {
    SelectMembers(rows.inserted, keep);
    SelectMembers(rows.checkpoint, keep);
    SelectMembers(Take(Select(rows.checkpoint, keep), limit), relationship => relationship !in rows.deleted);
  }

  function OnResourceRelation(resource: Object, relation: string): Relationship -> bool {
    (row: Relationship) => row.resource == resource && row.relation == relation
  }

  /** All rows on `resource#relation`, within a per-segment limit. */
  function ResourceRelation(rows: Rows, resource: Object, relation: string, limit: QueryLimit): seq<Relationship> {
    Query(rows, OnResourceRelation(resource, relation), limit)
  }

  function OnResourceRelationSubject(resource: Object, relation: string, filter: SubjectFilter): Relationship -> bool {
    (row: Relationship) => row.resource == resource && row.relation == relation && MatchesSubject(row.subject, filter)
  }

  /** The existence test behind direct membership: it asks each segment for one match only. */
  predicate AnyResourceRelationSubject(rows: Rows, resource: Object, relation: string, filter: SubjectFilter) {
    Query(rows, OnResourceRelationSubject(resource, relation, filter), AtMost(1)) != []
  }

  // ---------------------------------------------------------------- limits and tombstones

  /** A prefix selects as much as the whole exactly when nothing selectable follows it. */
  lemma PrefixSelectsAll<T>(items: seq<T>, n: nat, keep: T -> bool)
    requires n <= |items|
    ensures Select(items[..n], keep) == Select(items, keep) <==> forall i :: n <= i < |items| ==> !keep(items[i])
  {
    assert items == items[..n] + items[n..];
    SelectConcat(items[..n], items[n..], keep);
    SelectMembers(items[n..], keep);
    if forall i :: n <= i < |items| ==> !keep(items[i]) {
      NoneSelected(items[n..], keep);
    } else {
      var i :| n <= i < |items| && keep(items[i]);
      assert items[n..][i - n] == items[i];
      assert Select(items[n..], keep) != [];
    }
  }

  lemma SamePrefix<T>(prefix: seq<T>, left: seq<T>, right: seq<T>)
    ensures prefix + left == prefix + right <==> left == right
  {
    if prefix + left == prefix + right {
      assert left == (prefix + left)[|prefix|..];
      assert right == (prefix + right)[|prefix|..];
    }
  }

  /** A limited query yields what an unlimited one does exactly if what was inserted fits the limit and the
      checkpoint's matches beyond the limit are tombstones. */
  lemma LimitedQueryIsCompleteExactly(rows: Rows, keep: Relationship -> bool, limit: nat)
    ensures var stored := Select(rows.checkpoint, keep);
            Query(rows, keep, AtMost(limit)) == Query(rows, keep, Unbounded)
            <==> |Select(rows.inserted, keep)| <= limit && forall i :: limit <= i < |stored| ==> stored[i] in rows.deleted
  {
    hide Select;
    var alive := (relationship: Relationship) => relationship !in rows.deleted;
    var inserted, stored := Select(rows.inserted, keep), Select(rows.checkpoint, keep);
    var taken := Take(stored, AtMost(limit));
    var short, long := Select(taken, alive), Select(stored, alive);
    var some, all := Query(rows, keep, AtMost(limit)), Query(rows, keep, Unbounded);
    assert all == inserted + long;
    assert some == Take(inserted, AtMost(limit)) + short;
    if |stored| > limit {
      PrefixSelectsAll(stored, limit, alive);
      assert stored == taken + stored[limit..];
      SelectConcat(taken, stored[limit..], alive);
    } else {
      assert taken == stored;
    }
    assert short == long <==> forall i :: limit <= i < |stored| ==> stored[i] in rows.deleted;
    if |inserted| <= limit {
      assert Take(inserted, AtMost(limit)) == inserted;
      SamePrefix(inserted, short, long);
      assert some == all <==> short == long;
    } else {
      assert |some| < |all|;
    }
  }

  function ViewerRow(i: nat): Relationship {
    Relationship(Object("doc", "readme"), "viewer", DirectSubject(Object(USER_TYPE, seq(i + 1, _ => 'u'))))
  }

  /** So many different viewers of one document. */
  function Viewers(n: nat): seq<Relationship> { seq(n, (i: nat) => ViewerRow(i)) }

  lemma NextViewerIsNew(n: nat)
    ensures ViewerRow(n) !in Viewers(n)
    ensures forall row :: row in Viewers(n) ==> row.resource == ViewerRow(n).resource && row.relation == ViewerRow(n).relation
  {
    assert |ViewerRow(n).subject.entity.id| == n + 1;
    forall i | 0 <= i < n ensures Viewers(n)[i] != ViewerRow(n) {
      assert |Viewers(n)[i].subject.entity.id| == i + 1;
    }
  }

  /** A live row behind as many matching tombstones as the limit allows is not found, and nothing else is. */
  lemma BuriedRow(dead: seq<Relationship>, last: Relationship, keep: Relationship -> bool)
    requires keep(last) && last !in dead && forall row :: row in dead ==> keep(row)
    ensures var rows := Rows([], dead + [last], set row | row in dead);
            Live(rows, last) && Query(rows, keep, AtMost(|dead|)) == []
  {
    var deleted := set row | row in dead;
    AllSelected(dead + [last], keep);
    assert (dead + [last])[..|dead|] == dead;
    NoneSelected(dead, relationship => relationship !in deleted);
  }
}
