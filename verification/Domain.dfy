/** Which strings are identifiers. Identifiers are ASCII, so one character stands for one byte. */
module Domain {
  import opened Vocabulary

  const MAX_TYPE_BYTES := 64
  const MAX_ID_BYTES := 256

  predicate IsAlphabetic(c: char) { 'a' <= c <= 'z' || 'A' <= c <= 'Z' }

  predicate IsDigit(c: char) { '0' <= c <= '9' }

  predicate IsGraphic(c: char) { '!' <= c <= '~' }

  predicate IsTypeChar(c: char, offset: nat) {
    IsAlphabetic(c) || (offset > 0 && (IsDigit(c) || c == '_'))
  }

  predicate IsIdChar(c: char) {
    IsGraphic(c) && c != '#' && c != '@' && c != ':' && c != '/' && c != '\\'
  }

  /** Object types and relation names obey the same rules. */
  predicate ValidTypeName(value: string) {
    0 < |value| <= MAX_TYPE_BYTES && forall i :: 0 <= i < |value| ==> IsTypeChar(value[i], i)
  }

  predicate ValidId(value: string) {
    0 < |value| <= MAX_ID_BYTES && forall i :: 0 <= i < |value| ==> IsIdChar(value[i])
  }

  predicate ValidObject(entity: Object) {
    ValidTypeName(entity.namespace) && ValidId(entity.id)
  }

  predicate ValidUser(user: User) {
    match user
    case UserId(id) => ValidId(id)
    case Userset(entity, relation) => ValidObject(entity) && ValidTypeName(relation)
  }

  predicate ValidSubject(subject: SubjectRef) {
    ValidObject(subject.entity) && (subject.UsersetSubject? ==> ValidTypeName(subject.relation))
  }

  predicate ValidRelationship(relationship: Relationship) {
    ValidObject(relationship.resource) && ValidTypeName(relationship.relation) && ValidSubject(relationship.subject)
  }
}
