/** Relationships as text, `type:id#relation@subject`: printing and parsing. Identifiers are ASCII, so one
    character stands for one byte. */
module RelationshipText {
  import opened Vocabulary
  import opened Domain

  const MAX_RELATIONSHIP_BYTES := 768

  datatype IdentifierKind = ObjectTypeName | ObjectIdText | RelationNameText

  datatype DomainError =
    | TextTooLong(maxBytes: nat)
    | Malformed(reason: string)
    | InvalidIdentifier(kind: IdentifierKind, value: string)

  // ---------------------------------------------------------------- printing

  function ObjectText(entity: Object): string { entity.namespace + ":" + entity.id }

  function SubjectText(subject: SubjectRef): string {
    match subject
    case DirectSubject(entity) => ObjectText(entity)
    case UsersetSubject(entity, relation) => ObjectText(entity) + "#" + relation
  }

  function Text(x: Relationship): string {
    ObjectText(x.resource) + "#" + x.relation + "@" + SubjectText(x.subject)
  }

  // ---------------------------------------------------------------- parsing

  /** Splits at the first delimiter. */
  function SplitOnce(value: string, delimiter: char): Option<(string, string)> {
    if value == "" then None
    else if value[0] == delimiter then Some(("", value[1..]))
    else match SplitOnce(value[1..], delimiter)
      case None => None
      case Some((left, right)) => Some(([value[0]] + left, right))
  }

  function SplitNonEmpty(value: string, delimiter: char, reason: string): Result<(string, string), DomainError> {
    match SplitOnce(value, delimiter)
    case None => Err(Malformed(reason))
    case Some((left, right)) => if left == "" || right == "" then Err(Malformed(reason)) else Ok((left, right))
  }

  function ParseTypeName(kind: IdentifierKind, value: string): Result<string, DomainError> {
    if ValidTypeName(value) then Ok(value) else Err(InvalidIdentifier(kind, value))
  }

  function ParseId(value: string): Result<string, DomainError> {
    if ValidId(value) then Ok(value) else Err(InvalidIdentifier(ObjectIdText, value))
  }

  function ParseObject(value: string, reason: string): Result<Object, DomainError> {
    var parts :- SplitNonEmpty(value, ':', reason);
    var namespace :- ParseTypeName(ObjectTypeName, parts.0);
    var id :- ParseId(parts.1);
    Ok(Object(namespace, id))
  }

  function ParseSubject(value: string): Result<SubjectRef, DomainError> {
    match SplitOnce(value, '#')
    case Some((left, right)) =>
      var entity :- ParseObject(left, "object reference must contain ':'");
      var relation :- ParseTypeName(RelationNameText, right);
      Ok(UsersetSubject(entity, relation))
    case None =>
      var entity :- ParseObject(value, "subject reference must contain ':'");
      Ok(DirectSubject(entity))
  }

  function ParseFields(value: string): Result<Relationship, DomainError> {
    var sides :- SplitNonEmpty(value, '@', "relationship must contain one '@' separator");
    if '@' in sides.1 then Err(Malformed("relationship must contain one '@' separator"))
    else
      var parts :- SplitNonEmpty(sides.0, '#', "relationship resource must contain '#'");
      if '#' in parts.1 then Err(Malformed("relationship resource must contain one '#'"))
      else
        var resource :- ParseObject(parts.0, "object reference must contain ':'");
        var relation :- ParseTypeName(RelationNameText, parts.1);
        var subject :- ParseSubject(sides.1);
        Ok(Relationship(resource, relation, subject))
  }

  function ParseRelationship(value: string): Result<Relationship, DomainError> {
    if |value| > MAX_RELATIONSHIP_BYTES then Err(TextTooLong(MAX_RELATIONSHIP_BYTES)) else ParseFields(value)
  }

  // ---------------------------------------------------------------- splitting

  lemma {:induction false} SplitRejoins(value: string, delimiter: char)
    ensures SplitOnce(value, delimiter).None? <==> delimiter !in value
    ensures SplitOnce(value, delimiter).Some? ==>
      var (left, right) := SplitOnce(value, delimiter).value; value == left + [delimiter] + right && delimiter !in left
  {
    if value != "" && value[0] != delimiter {
      SplitRejoins(value[1..], delimiter);
      assert value == [value[0]] + value[1..];
    }
  }

  lemma {:induction false} SplitsAtFirst(left: string, delimiter: char, right: string)
    requires delimiter !in left
    ensures SplitOnce(left + [delimiter] + right, delimiter) == Some((left, right))
  {
    var whole := left + [delimiter] + right;
    if left == "" {
      assert whole[1..] == right;
    } else {
      SplitsAtFirst(left[1..], delimiter, right);
      assert whole[1..] == left[1..] + [delimiter] + right;
      assert left == [left[0]] + left[1..];
    }
  }

  lemma NamesHaveNoDelimiters(value: string)
    requires ValidTypeName(value)
    ensures ':' !in value && '#' !in value && '@' !in value && value != ""
  {
  }

  lemma IdsHaveNoDelimiters(value: string)
    requires ValidId(value)
    ensures ':' !in value && '#' !in value && '@' !in value && value != ""
  {
  }

  lemma ObjectTextHasNoDelimiters(entity: Object)
    requires ValidObject(entity)
    ensures '#' !in ObjectText(entity) && '@' !in ObjectText(entity) && ObjectText(entity) != ""
  {
    NamesHaveNoDelimiters(entity.namespace);
    IdsHaveNoDelimiters(entity.id);
  }

  // ---------------------------------------------------------------- round trips

  lemma ObjectRoundTrip(entity: Object, reason: string)
    requires ValidObject(entity)
    ensures ParseObject(ObjectText(entity), reason) == Ok(entity)
  {
    hide SplitOnce, ValidTypeName, ValidId;
    NamesHaveNoDelimiters(entity.namespace);
    IdsHaveNoDelimiters(entity.id);
    SplitsAtFirst(entity.namespace, ':', entity.id);
  }

  lemma SubjectRoundTrip(subject: SubjectRef)
    requires ValidSubject(subject)
    ensures ParseSubject(SubjectText(subject)) == Ok(subject)
    ensures '@' !in SubjectText(subject) && SubjectText(subject) != ""
  {
    hide SplitOnce, ValidTypeName, ValidId, ParseObject, ObjectText;
    ObjectTextHasNoDelimiters(subject.entity);
    match subject
    case DirectSubject(entity) =>
      SplitRejoins(ObjectText(entity), '#');
      ObjectRoundTrip(entity, "subject reference must contain ':'");
    case UsersetSubject(entity, relation) =>
      NamesHaveNoDelimiters(relation);
      SplitsAtFirst(ObjectText(entity), '#', relation);
      ObjectRoundTrip(entity, "object reference must contain ':'");
  }

  lemma FieldsRoundTrip(x: Relationship)
    requires ValidRelationship(x)
    ensures ParseFields(Text(x)) == Ok(x)
  {
    hide SplitOnce, ValidTypeName, ValidId, ParseObject, ObjectText, SubjectText, ParseSubject;
    var left, subject := ObjectText(x.resource) + "#" + x.relation, SubjectText(x.subject);
    ObjectTextHasNoDelimiters(x.resource);
    NamesHaveNoDelimiters(x.relation);
    SubjectRoundTrip(x.subject);
    ObjectRoundTrip(x.resource, "object reference must contain ':'");
    SplitsAtFirst(left, '@', subject);
    SplitsAtFirst(ObjectText(x.resource), '#', x.relation);
  }

  /** Parsing what was printed gives the relationship back exactly when the text keeps to the limit. */
  lemma RelationshipRoundTrip(x: Relationship)
    requires ValidRelationship(x)
    ensures ParseRelationship(Text(x)) == if |Text(x)| <= MAX_RELATIONSHIP_BYTES then Ok(x) else Err(TextTooLong(MAX_RELATIONSHIP_BYTES))
  {
    FieldsRoundTrip(x);
  }

  /** Different relationships print differently. */
  lemma TextIsInjective(left: Relationship, right: Relationship)
    requires ValidRelationship(left) && ValidRelationship(right) && Text(left) == Text(right)
    ensures left == right
  {
    FieldsRoundTrip(left);
    FieldsRoundTrip(right);
  }

  lemma ParsedObjectPrints(value: string, reason: string)
    requires ParseObject(value, reason).Ok?
    ensures ValidObject(ParseObject(value, reason).value) && ObjectText(ParseObject(value, reason).value) == value
  {
    hide SplitOnce, ValidTypeName, ValidId;
    SplitRejoins(value, ':');
  }

  lemma ParsedSubjectPrints(value: string)
    requires ParseSubject(value).Ok?
    ensures ValidSubject(ParseSubject(value).value) && SubjectText(ParseSubject(value).value) == value
  {
    hide SplitOnce, ValidTypeName, ParseObject, ValidObject, ObjectText;
    SplitRejoins(value, '#');
    match SplitOnce(value, '#')
    case Some((left, right)) => ParsedObjectPrints(left, "object reference must contain ':'");
    case None => ParsedObjectPrints(value, "subject reference must contain ':'");
  }

  /** Printing any accepted text reproduces it, so every relationship has one accepted spelling. */
  lemma AcceptedTextIsCanonical(value: string)
    requires ParseRelationship(value).Ok?
    ensures ValidRelationship(ParseRelationship(value).value) && Text(ParseRelationship(value).value) == value
  {
    hide SplitOnce, ValidTypeName, ParseObject, ValidObject, ObjectText, ParseSubject, SubjectText, ValidSubject;
    SplitRejoins(value, '@');
    var (left, right) := SplitOnce(value, '@').value;
    SplitRejoins(left, '#');
    var (entity, relation) := SplitOnce(left, '#').value;
    ParsedObjectPrints(entity, "object reference must contain ':'");
    ParsedSubjectPrints(right);
  }

  // ---------------------------------------------------------------- the length limit

  /** A relationship with a direct subject always fits; one with a userset subject fails the round trip only
      in the five longest lengths. */
  lemma TextLengths(x: Relationship)
    requires ValidRelationship(x)
    ensures x.subject.DirectSubject? ==> |Text(x)| <= 708
    ensures |Text(x)| <= 773
    ensures ParseRelationship(Text(x)) == Ok(x) <==> |Text(x)| <= MAX_RELATIONSHIP_BYTES
  {
    RelationshipRoundTrip(x);
  }

  function Repeated(c: char, count: nat): (r: string)
    ensures |r| == count && forall i :: 0 <= i < count ==> r[i] == c
  {
    seq(count, _ => c)
  }

  /** The round trip does fail on some valid relationship. */
  lemma LongestTextIsRejected() returns (x: Relationship)
    ensures ValidRelationship(x) && |Text(x)| == 773 && ParseRelationship(Text(x)).Err?
  {
    var name, id := Repeated('a', MAX_TYPE_BYTES), Repeated('a', MAX_ID_BYTES);
    x := Relationship(Object(name, id), name, UsersetSubject(Object(name, id), name));
  }
}
