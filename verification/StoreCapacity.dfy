/** How much of the 32-bit identifier space a relationship takes up, and the estimate a batch of touches is
    checked against beforehand. */
module StoreCapacity {
  import opened Vocabulary
  import opened Interner

  /** The strings a relationship is stored by, in the order they are interned. */
  function Identifiers(x: Relationship): seq<string> {
    [x.resource.namespace, x.resource.id, x.relation, x.subject.entity.namespace, x.subject.entity.id]
    + if x.subject.UsersetSubject? then [x.subject.relation] else []
  }

  // ---------------------------------------------------------------- what interning takes

  function With(names: seq<string>, value: string): seq<string> {
    if value in names then names else names + [value]
  }

  /** The names after the values have been interned one after another. */
  function WithAll(names: seq<string>, values: seq<string>): seq<string>
    decreases |values|
  {
    if values == [] then names else WithAll(With(names, values[0]), values[1..])
  }

  /** The bytes they add. */
  function BytesFor(names: seq<string>, values: seq<string>): nat
    decreases |values|
  {
    if values == [] then 0
    else (if values[0] in names then 0 else |values[0]|) + BytesFor(With(names, values[0]), values[1..])
  }

  /** There are ids and offsets for all of them. */
  predicate Room(names: seq<string>, size: nat, values: seq<string>)
    decreases |values|
  {
    values == []
    || (if values[0] in names then Room(names, size, values[1..])
        else |names| + 1 <= MAX_U32 && size + |values[0]| <= MAX_U32 && Room(names + [values[0]], size + |values[0]|, values[1..]))
  }

  lemma {:induction false} InternedInTurn(names: seq<string>, first: seq<string>, rest: seq<string>)
    ensures WithAll(names, first + rest) == WithAll(WithAll(names, first), rest)
    ensures BytesFor(names, first + rest) == BytesFor(names, first) + BytesFor(WithAll(names, first), rest)
    decreases |first|
  {
    if first == [] {
      assert first + rest == rest;
    } else {
      assert (first + rest)[1..] == first[1..] + rest;
      InternedInTurn(With(names, first[0]), first[1..], rest);
    }
  }

  /** There is room for the whole exactly if there is room for its parts in turn. */
  lemma {:induction false} RoomForParts(names: seq<string>, size: nat, first: seq<string>, rest: seq<string>)
    ensures Room(names, size, first + rest) <==>
              Room(names, size, first) && Room(WithAll(names, first), size + BytesFor(names, first), rest)
    decreases |first|
  {
    if first == [] {
      assert first + rest == rest;
    } else {
      var v := first[0];
      assert (first + rest)[1..] == first[1..] + rest;
      RoomForParts(With(names, v), size + if v in names then 0 else |v|, first[1..], rest);
    }
  }

  lemma RoomForOne(names: seq<string>, size: nat, value: string)
    ensures WithAll(names, [value]) == With(names, value)
    ensures BytesFor(names, [value]) == if value in names then 0 else |value|
    ensures Room(names, size, [value]) <==> value in names || (|names| + 1 <= MAX_U32 && size + |value| <= MAX_U32)
  {
    assert [value][1..] == [];
  }

  /** The names of an interner and the size of its text. */
  datatype Symbols = Symbols(names: seq<string>, size: nat) {
    function And(values: seq<string>): Symbols { Symbols(WithAll(names, values), size + BytesFor(names, values)) }

    predicate RoomFor(values: seq<string>) { Room(names, size, values) }
  }

  lemma InTurn(symbols: Symbols, first: seq<string>, rest: seq<string>)
    ensures symbols.RoomFor(first + rest) <==> symbols.RoomFor(first) && symbols.And(first).RoomFor(rest)
    ensures symbols.And(first + rest) == symbols.And(first).And(rest)
  {
    hide Room, WithAll, BytesFor;
    InternedInTurn(symbols.names, first, rest);
    RoomForParts(symbols.names, symbols.size, first, rest);
  }

  lemma NothingToIntern(symbols: Symbols)
    ensures symbols.RoomFor([]) && symbols.And([]) == symbols
  {
  }

  function ObjectIdentifiers(entity: Object): seq<string> { [entity.namespace, entity.id] }

  function SubjectRelation(x: Relationship): seq<string> {
    if x.subject.UsersetSubject? then [x.subject.relation] else []
  }

  /** A relationship's identifiers, part by part. */
  lemma RelationshipInTurn(symbols: Symbols, x: Relationship)
    ensures var resource := symbols.And(ObjectIdentifiers(x.resource));
            var relation := resource.And([x.relation]);
            var subject := relation.And(ObjectIdentifiers(x.subject.entity));
            && (symbols.RoomFor(Identifiers(x)) <==>
                  && symbols.RoomFor(ObjectIdentifiers(x.resource)) && resource.RoomFor([x.relation])
                  && relation.RoomFor(ObjectIdentifiers(x.subject.entity)) && subject.RoomFor(SubjectRelation(x)))
            && symbols.And(Identifiers(x)) == subject.And(SubjectRelation(x))
            && subject.RoomFor([]) && subject.And([]) == subject
  {
    hide Symbols.And, Symbols.RoomFor;
    var resource, subject, end := ObjectIdentifiers(x.resource), ObjectIdentifiers(x.subject.entity), SubjectRelation(x);
    assert Identifiers(x) == resource + ([x.relation] + (subject + end));
    InTurn(symbols, resource, [x.relation] + (subject + end));
    InTurn(symbols.And(resource), [x.relation], subject + end);
    InTurn(symbols.And(resource).And([x.relation]), subject, end);
    NothingToIntern(symbols.And(resource).And([x.relation]).And(subject));
  }

  // ---------------------------------------------------------------- the estimate

  /** How many of the values are unknown, and their bytes; a value that comes twice counts twice. */
  function Unknown(names: seq<string>, values: seq<string>): nat {
    if values == [] then 0 else (if values[0] in names then 0 else 1) + Unknown(names, values[1..])
  }

  function UnknownBytes(names: seq<string>, values: seq<string>): nat {
    if values == [] then 0 else (if values[0] in names then 0 else |values[0]|) + UnknownBytes(names, values[1..])
  }

  predicate Estimated(known: seq<string>, nameCount: nat, size: nat, values: seq<string>) {
    Unknown(known, values) > 0 ==>
      nameCount + Unknown(known, values) <= MAX_U32 && size + UnknownBytes(known, values) <= MAX_U32
  }

  /** The estimate is not too low, however many names have joined since it was made. */
  lemma {:induction false} EstimateSuffices(known: seq<string>, names: seq<string>, size: nat, values: seq<string>)
    requires forall name :: name in known ==> name in names
    ensures |WithAll(names, values)| <= |names| + Unknown(known, values)
    ensures BytesFor(names, values) <= UnknownBytes(known, values)
    ensures Estimated(known, |names|, size, values) ==> Room(names, size, values)
    decreases |values|
  {
    if values != [] {
      var v := values[0];
      EstimateSuffices(known, With(names, v), size + if v in names then 0 else |v|, values[1..]);
    }
  }

  /** The relationships a batch of touches will have to insert. */
  function Absent(present: seq<Relationship>, touched: seq<Relationship>): seq<Relationship> {
    if touched == [] then []
    else (if touched[0] in present then [] else [touched[0]]) + Absent(present, touched[1..])
  }

  function AllIdentifiers(relationships: seq<Relationship>): seq<string> {
    if relationships == [] then [] else Identifiers(relationships[0]) + AllIdentifiers(relationships[1..])
  }

  /** The check made before any touch: rows, identifiers and their bytes are counted against the names known
      before the batch. */
  predicate BatchFits(known: seq<string>, symbols: Symbols, rowCount: nat, absent: seq<Relationship>) {
    absent != [] ==>
      && rowCount + |absent| <= MAX_U32
      && (Unknown(known, AllIdentifiers(absent)) > 0 ==> |symbols.names| + Unknown(known, AllIdentifiers(absent)) <= MAX_U32)
      && symbols.size + UnknownBytes(known, AllIdentifiers(absent)) <= MAX_U32
  }

  /** Where the batch fits, its first relationship does, and then the others still fit. */
  lemma FirstFits(known: seq<string>, symbols: Symbols, rowCount: nat, absent: seq<Relationship>)
    requires BatchFits(known, symbols, rowCount, absent) && absent != []
    requires forall name :: name in known ==> name in symbols.names
    ensures rowCount + 1 <= MAX_U32 && symbols.RoomFor(Identifiers(absent[0]))
    ensures BatchFits(known, symbols.And(Identifiers(absent[0])), rowCount + 1, absent[1..])
  {
    hide Identifiers, WithAll, BytesFor, Room, Unknown, UnknownBytes;
    var first := Identifiers(absent[0]);
    UnknownConcat(known, first, AllIdentifiers(absent[1..]));
    EstimateSuffices(known, symbols.names, symbols.size, first);
  }

  lemma {:induction false} UnknownConcat(names: seq<string>, left: seq<string>, right: seq<string>)
    ensures Unknown(names, left + right) == Unknown(names, left) + Unknown(names, right)
    ensures UnknownBytes(names, left + right) == UnknownBytes(names, left) + UnknownBytes(names, right)
  {
    if left == [] {
      assert left + right == right;
    } else {
      assert (left + right)[1..] == left[1..] + right;
      UnknownConcat(names, left[1..], right);
    }
  }

  lemma {:induction false} AbsentConcat(present: seq<Relationship>, left: seq<Relationship>, right: seq<Relationship>)
    ensures Absent(present, left + right) == Absent(present, left) + Absent(present, right)
  {
    if left == [] {
      assert left + right == right;
    } else {
      assert (left + right)[1..] == left[1..] + right;
      AbsentConcat(present, left[1..], right);
    }
  }

  lemma {:induction false} IdentifiersConcat(left: seq<Relationship>, right: seq<Relationship>)
    ensures AllIdentifiers(left + right) == AllIdentifiers(left) + AllIdentifiers(right)
  {
    hide Identifiers;
    if left == [] {
      assert left + right == right;
    } else {
      assert (left + right)[1..] == left[1..] + right;
      IdentifiersConcat(left[1..], right);
    }
  }
}
