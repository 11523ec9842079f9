/** Policy text: relationships exported into one sorted file per resource type, and read back line by line. */
module PolicyText {
  import opened Vocabulary
  import opened Domain
  import opened TextOrder
  import opened RelationshipText

  datatype PolicyTextFile = PolicyTextFile(path: string, contents: string)

  // ---------------------------------------------------------------- export

  function Texts(relationships: seq<Relationship>): seq<string> {
    seq(|relationships|, i requires 0 <= i < |relationships| => Text(relationships[i]))
  }

  function OfType(objectType: string): Relationship -> bool {
    (x: Relationship) => x.resource.namespace == objectType
  }

  function TypesOf(relationships: seq<Relationship>): set<string> {
    set x | x in relationships :: x.resource.namespace
  }

  /** The lines joined by line feeds, and one more at the end. */
  function Joined(lines: seq<string>): string {
    if lines == [] then "" else lines[0] + "\n" + Joined(lines[1..])
  }

  function LinesOf(objectType: string, relationships: seq<Relationship>): seq<string> {
    Sorted(Texts(Select(relationships, OfType(objectType))))
  }

  function FileOf(objectType: string, relationships: seq<Relationship>): PolicyTextFile {
    PolicyTextFile("relationships/" + objectType + ".zedtuples", Joined(LinesOf(objectType, relationships)))
  }

  /** One file per resource type, in the order of the types. */
  ghost predicate Exports(types: seq<string>, files: seq<PolicyTextFile>, relationships: seq<Relationship>) {
    && InOrder(types) && Distinct(types)
    && (forall objectType :: objectType in types <==> objectType in TypesOf(relationships))
    && |files| == |types|
    && forall i :: 0 <= i < |files| ==> files[i] == FileOf(types[i], relationships)
  }

  /** The texts of the relationships, grouped by resource type. */
  method GroupTexts(relationships: seq<Relationship>) returns (groups: map<string, seq<string>>)
    ensures groups.Keys == TypesOf(relationships)
    ensures forall t :: t in groups ==> groups[t] == Texts(Select(relationships, OfType(t)))
  {
    hide Grouped;
    groups := map[];
    NothingGrouped(relationships);
    for i := 0 to |relationships|
      invariant Grouped(groups, relationships, i)
    {
      var x := relationships[i];
      var objectType := x.resource.namespace;
      var group := if objectType in groups then groups[objectType] else [];
      GroupedNext(groups, relationships, i);
      groups := groups[objectType := group + [Text(x)]];
    }
    AllGrouped(groups, relationships);
  }

  /** The groups of the first `n` relationships. */
  ghost predicate Grouped(groups: map<string, seq<string>>, relationships: seq<Relationship>, n: nat)
    requires n <= |relationships|
  {
    && groups.Keys == TypesOf(relationships[..n])
    && forall t :: t in groups ==> groups[t] == Texts(Select(relationships[..n], OfType(t)))
  }

  lemma NothingGrouped(relationships: seq<Relationship>)
    ensures Grouped(map[], relationships, 0)
  {
  }

  lemma GroupedNext(groups: map<string, seq<string>>, relationships: seq<Relationship>, i: nat)
    requires i < |relationships| && Grouped(groups, relationships, i)
    ensures var x := relationships[i];
            var group := if x.resource.namespace in groups then groups[x.resource.namespace] else [];
            Grouped(groups[x.resource.namespace := group + [Text(x)]], relationships, i + 1)
  {
    hide Text, Texts, Select;
    GroupGrows(relationships, i);
    assert forall t :: t != relationships[i].resource.namespace ==> LinesFor(relationships[i], t) == [];
  }

  lemma AllGrouped(groups: map<string, seq<string>>, relationships: seq<Relationship>)
    requires Grouped(groups, relationships, |relationships|)
    ensures groups.Keys == TypesOf(relationships)
    ensures forall t :: t in groups ==> groups[t] == Texts(Select(relationships, OfType(t)))
  {
    assert relationships[..|relationships|] == relationships;
  }

  method RelationshipFiles(relationships: seq<Relationship>) returns (files: seq<PolicyTextFile>)
    ensures exists types :: Exports(types, files, relationships)
  {
    hide Text, Texts, Select, Sorted, Joined, AtOrBelow;
    var groups := GroupTexts(relationships);
    var order := OrderedKeys(groups);
    files := [];
    for i := 0 to |order|
      invariant |files| == i
      invariant forall k :: 0 <= k < i ==> files[k] == FileOf(order[k], relationships)
    {
      assert order[i] in groups;
      var lines := Sorted(groups[order[i]]);
      files := files + [PolicyTextFile("relationships/" + order[i] + ".zedtuples", Joined(lines))];
    }
    assert Exports(order, files, relationships);
  }

  /** What a relationship adds to the group of a type. */
  function LinesFor(x: Relationship, objectType: string): seq<string> {
    if x.resource.namespace == objectType then [Text(x)] else []
  }

  lemma GroupGrows(relationships: seq<Relationship>, i: nat)
    requires i < |relationships|
    ensures TypesOf(relationships[..i + 1]) == TypesOf(relationships[..i]) + {relationships[i].resource.namespace}
    ensures forall t :: Texts(Select(relationships[..i + 1], OfType(t))) == Texts(Select(relationships[..i], OfType(t))) + LinesFor(relationships[i], t)
    ensures relationships[i].resource.namespace !in TypesOf(relationships[..i]) ==>
      Texts(Select(relationships[..i], OfType(relationships[i].resource.namespace))) == []
  {
    hide Text, Select;
    assert relationships[..i + 1] == relationships[..i] + [relationships[i]];
    forall objectType
      ensures Texts(Select(relationships[..i + 1], OfType(objectType))) ==
              Texts(Select(relationships[..i], OfType(objectType))) + LinesFor(relationships[i], objectType)
    {
      SelectNext(relationships, i, OfType(objectType));
    }
    if relationships[i].resource.namespace !in TypesOf(relationships[..i]) {
      NoneSelected(relationships[..i], OfType(relationships[i].resource.namespace));
    }
  }

  /** The keys of the sorted group map, in order. */
  method OrderedKeys(groups: map<string, seq<string>>) returns (order: seq<string>)
    ensures InOrder(order) && Distinct(order)
    ensures forall key :: key in order <==> key in groups
  {
    order := [];
    var left := groups.Keys;
    while left != {}
      invariant left <= groups.Keys && InOrder(order)
      invariant Distinct(order)
      invariant forall key :: key in order <==> key in groups.Keys - left
      decreases |left|
    {
      var key :| key in left;
      left := left - {key};
      InsertionKeepsOrder(key, order);
      InsertionKeepsDistinct(key, order);
      order := Inserted(key, order);
    }
  }

  lemma {:induction false} InsertionKeepsDistinct(line: string, lines: seq<string>)
    requires line !in lines && Distinct(lines)
    ensures forall other :: other in Inserted(line, lines) <==> other == line || other in lines
    ensures Distinct(Inserted(line, lines))
  {
    if lines == [] || AtOrBelow(line, lines[0]) {
      DistinctWithHead(line, lines);
    } else {
      InsertionKeepsDistinct(line, lines[1..]);
      assert lines == [lines[0]] + lines[1..];
      assert lines[0] !in lines[1..] by { assert forall j :: 0 <= j < |lines[1..]| ==> lines[1..][j] == lines[j + 1]; }
      DistinctWithHead(lines[0], Inserted(line, lines[1..]));
    }
  }

  lemma DistinctWithHead(line: string, lines: seq<string>)
    requires line !in lines && Distinct(lines)
    ensures Distinct([line] + lines)
  {
  }

  // ---------------------------------------------------------------- import

  function WithoutCarriageReturn(line: string): string {
    if line != "" && line[|line| - 1] == '\r' then line[..|line| - 1] else line
  }

  /** The lines of a text; a terminated line may end in a carriage return. */
  function Lines(contents: string): seq<string>
    decreases |contents|
  {
    SplitRejoins(contents, '\n');
    if contents == "" then []
    else match SplitOnce(contents, '\n')
      case None => [contents]
      case Some((line, rest)) => [WithoutCarriageReturn(line)] + Lines(rest)
  }

  predicate IsWhitespace(c: char) { c == ' ' || '\t' <= c <= '\r' }

  function TrimStart(line: string): string {
    if line != "" && IsWhitespace(line[0]) then TrimStart(line[1..]) else line
  }

  function TrimEnd(line: string): string {
    if line != "" && IsWhitespace(line[|line| - 1]) then TrimEnd(line[..|line| - 1]) else line
  }

  function Trim(line: string): string { TrimEnd(TrimStart(line)) }

  /** Blank lines and full-line comments are skipped. */
  predicate IsSkipped(trimmed: string) {
    trimmed == "" || trimmed[0] == '#' || "//" <= trimmed
  }

  /** The lines that must parse, in order. */
  function Statements(lines: seq<string>): seq<string> {
    if lines == [] then []
    else (if IsSkipped(Trim(lines[0])) then [] else [Trim(lines[0])]) + Statements(lines[1..])
  }

  function FileStatements(files: seq<PolicyTextFile>): seq<string> {
    if files == [] then [] else Statements(Lines(files[0].contents)) + FileStatements(files[1..])
  }

  /** The statements are exactly the texts of the relationships. */
  ghost predicate AllParse(statements: seq<string>, relationships: seq<Relationship>) {
    |relationships| == |statements|
    && forall i :: 0 <= i < |statements| ==> ParseRelationship(statements[i]) == Ok(relationships[i])
  }

  lemma ParsedAlong(done: seq<string>, relationships: seq<Relationship>, more: seq<string>, further: seq<Relationship>)
    requires AllParse(done, relationships) && AllParse(more, further)
    ensures AllParse(done + more, relationships + further)
  {
    hide ParseRelationship;
  }

  lemma NothingParsed()
    ensures AllParse([], [])
  {
  }

  lemma ParsedOne(statement: string, x: Relationship)
    requires ParseRelationship(statement) == Ok(x)
    ensures AllParse([statement], [x])
  {
  }

  /** What a line adds to the statements of the lines after it. */
  lemma NextStatement(lines: seq<string>, from: nat)
    requires from < |lines|
    ensures Statements(lines[from..]) ==
            (if IsSkipped(Trim(lines[from])) then [] else [Trim(lines[from])]) + Statements(lines[from + 1..])
  {
    assert lines[from..][1..] == lines[from + 1..];
  }

  lemma NoStatements(lines: seq<string>)
    requires lines == []
    ensures Statements(lines) == []
  {
  }

  method ParseLines(lines: seq<string>) returns (r: Result<seq<Relationship>, DomainError>)
    ensures r.Ok? ==> AllParse(Statements(lines), r.value)
    ensures r.Err? ==> exists statement :: statement in Statements(lines) && ParseRelationship(statement) == Err(r.error)
  {
    hide ParseRelationship, Trim, IsSkipped, Lines, AllParse, Statements;
    NothingParsed();
    var relationships: seq<Relationship> := [];
    ghost var done: seq<string> := [];
    assert lines[0..] == lines;
    for i := 0 to |lines|
      invariant Statements(lines) == done + Statements(lines[i..])
      invariant AllParse(done, relationships)
    {
      NextStatement(lines, i);
      var trimmed := Trim(lines[i]);
      if IsSkipped(trimmed) {
        continue;
      }
      var parsed := ParseRelationship(trimmed);
      if parsed.Err? {
        assert trimmed in Statements(lines[i..]);
        return Err(parsed.error);
      }
      ParsedOne(trimmed, parsed.value);
      ParsedAlong(done, relationships, [trimmed], [parsed.value]);
      relationships := relationships + [parsed.value];
      assert Statements(lines) == done + [trimmed] + Statements(lines[i + 1..]);
      done := done + [trimmed];
    }
    NoStatements(lines[|lines|..]);
    assert Statements(lines) == done;
    r := Ok(relationships);
  }

  /** The statements of a file and of those after it. */
  lemma NextFile(files: seq<PolicyTextFile>, from: nat)
    requires from < |files|
    ensures FileStatements(files[from..]) == Statements(Lines(files[from].contents)) + FileStatements(files[from + 1..])
  {
    assert files[from..][1..] == files[from + 1..];
  }

  lemma NoFiles(files: seq<PolicyTextFile>)
    requires files == []
    ensures FileStatements(files) == []
  {
  }

  /** Reads every file; it fails exactly if some statement does not parse. */
  method ParseRelationships(files: seq<PolicyTextFile>) returns (r: Result<seq<Relationship>, DomainError>)
    ensures r.Ok? ==> AllParse(FileStatements(files), r.value)
    ensures r.Err? ==> exists statement :: statement in FileStatements(files) && ParseRelationship(statement) == Err(r.error)
  {
    hide ParseRelationship, Lines, AllParse, Statements, FileStatements;
    NothingParsed();
    var relationships: seq<Relationship> := [];
    ghost var done: seq<string> := [];
    assert files[0..] == files;
    for i := 0 to |files|
      invariant FileStatements(files) == done + FileStatements(files[i..])
      invariant AllParse(done, relationships)
    {
      NextFile(files, i);
      ghost var statements := Statements(Lines(files[i].contents));
      assert FileStatements(files) == done + statements + FileStatements(files[i + 1..]);
      var read := ParseLines(Lines(files[i].contents));
      if read.Err? {
        return Err(read.error);
      }
      ParsedAlong(done, relationships, statements, read.value);
      relationships := relationships + read.value;
      done := done + statements;
    }
    NoFiles(files[|files|..]);
    assert FileStatements(files) == done;
    r := Ok(relationships);
  }

  // ---------------------------------------------------------------- round trip

  /** What an exported line looks like: nothing to trim, nothing to split, no comment. */
  ghost predicate PlainLine(line: string) {
    && line != "" && '\n' !in line
    && !IsWhitespace(line[0]) && !IsWhitespace(line[|line| - 1])
    && IsAlphabetic(line[0])
  }

  lemma TextIsPlain(x: Relationship)
    requires ValidRelationship(x)
    ensures PlainLine(Text(x))
  {
    var line := Text(x);
    assert line[0] == x.resource.namespace[0];
    var last := if x.subject.UsersetSubject? then x.subject.relation else x.subject.entity.id;
    assert line[|line| - 1] == last[|last| - 1];
  }

  lemma PlainLineStands(line: string)
    requires PlainLine(line)
    ensures Trim(line) == line && !IsSkipped(line) && WithoutCarriageReturn(line) == line
  {
  }

  lemma {:induction false} PlainLinesReadBack(lines: seq<string>)
    requires forall i :: 0 <= i < |lines| ==> PlainLine(lines[i])
    ensures Statements(Lines(Joined(lines))) == lines
  {
    if lines != [] {
      PlainLinesReadBack(lines[1..]);
      PlainLineStands(lines[0]);
      var rest := Joined(lines[1..]);
      assert Joined(lines) == lines[0] + ['\n'] + rest;
      SplitsAtFirst(lines[0], '\n', rest);
      assert Lines(Joined(lines)) == [lines[0]] + Lines(rest);
      assert Statements([lines[0]] + Lines(rest)) == [lines[0]] + Statements(Lines(rest));
    }
  }

  ghost predicate AllValid(relationships: seq<Relationship>) {
    forall i :: 0 <= i < |relationships| ==> ValidRelationship(relationships[i])
  }

  lemma SelectedValid(relationships: seq<Relationship>, keep: Relationship -> bool)
    requires AllValid(relationships)
    ensures AllValid(Select(relationships, keep))
  {
    SelectMembers(relationships, keep);
    forall i | 0 <= i < |Select(relationships, keep)| ensures ValidRelationship(Select(relationships, keep)[i]) {
      assert Select(relationships, keep)[i] in Select(relationships, keep);
    }
  }

  lemma GroupReadsBack(objectType: string, relationships: seq<Relationship>)
    requires AllValid(relationships)
    ensures Statements(Lines(FileOf(objectType, relationships).contents)) == LinesOf(objectType, relationships)
  {
    hide ValidRelationship, PlainLine;
    var group := Select(relationships, OfType(objectType));
    SelectedValid(relationships, OfType(objectType));
    SortingSorts(Texts(group));
    var lines := LinesOf(objectType, relationships);
    forall i | 0 <= i < |lines| ensures PlainLine(lines[i]) {
      assert lines[i] in multiset(Texts(group));
      var j :| 0 <= j < |group| && Texts(group)[j] == lines[i];
      TextIsPlain(group[j]);
    }
    PlainLinesReadBack(lines);
  }

  /** Relationships of the listed types. */
  function OfTypes(types: seq<string>): Relationship -> bool {
    (x: Relationship) => x.resource.namespace in types
  }

  lemma {:induction false} TextsOfPart(relationships: seq<Relationship>, types: seq<string>)
    requires types != [] && types[0] !in types[1..]
    ensures multiset(Texts(Select(relationships, OfTypes(types))))
            == multiset(Texts(Select(relationships, OfType(types[0])))) + multiset(Texts(Select(relationships, OfTypes(types[1..]))))
    decreases |relationships|
  {
    if relationships != [] {
      TextsOfPart(relationships[1..], types);
      TextsOfHead(relationships, OfTypes(types));
      TextsOfHead(relationships, OfType(types[0]));
      TextsOfHead(relationships, OfTypes(types[1..]));
    }
  }

  lemma TextsOfHead(relationships: seq<Relationship>, keep: Relationship -> bool)
    requires relationships != []
    ensures multiset(Texts(Select(relationships, keep)))
            == multiset(Texts(Select(relationships[1..], keep))) + if keep(relationships[0]) then multiset{Text(relationships[0])} else multiset{}
  {
    hide Text;
    var rest := Select(relationships[1..], keep);
    assert Texts([relationships[0]] + rest) == [Text(relationships[0])] + Texts(rest);
  }

  /** What the files say, taken together, is every text as often as it was exported. */
  lemma {:induction false} FilesHoldTheTexts(types: seq<string>, files: seq<PolicyTextFile>, relationships: seq<Relationship>)
    requires AllValid(relationships) && |files| == |types|
    requires Distinct(types)
    requires forall i :: 0 <= i < |files| ==> files[i] == FileOf(types[i], relationships)
    ensures multiset(FileStatements(files)) == multiset(Texts(Select(relationships, OfTypes(types))))
    decreases |types|
  {
    hide AllValid;
    if types == [] {
      NoneSelected(relationships, OfTypes(types));
    } else {
      GroupReadsBack(types[0], relationships);
      FilesHoldTheTexts(types[1..], files[1..], relationships);
      TextsOfPart(relationships, types);
      SortingSorts(Texts(Select(relationships, OfType(types[0]))));
    }
  }

  lemma ExportHoldsTheTexts(types: seq<string>, files: seq<PolicyTextFile>, relationships: seq<Relationship>)
    requires AllValid(relationships) && Exports(types, files, relationships)
    ensures multiset(FileStatements(files)) == multiset(Texts(relationships))
  {
    FilesHoldTheTexts(types, files, relationships);
    AllSelected(relationships, OfTypes(types));
  }

  lemma {:induction false} CountedByText(relationships: seq<Relationship>, x: Relationship)
    requires AllValid(relationships) && ValidRelationship(x)
    ensures multiset(Texts(relationships))[Text(x)] == multiset(relationships)[x]
  {
    hide ValidRelationship, Text;
    if relationships != [] {
      var first, rest := relationships[0], relationships[1..];
      CountedByText(rest, x);
      assert relationships == [first] + rest;
      assert Texts(relationships) == [Text(first)] + Texts(rest);
      if Text(first) == Text(x) {
        TextIsInjective(first, x);
      }
    }
  }

  lemma SameTextsSameRelationships(left: seq<Relationship>, right: seq<Relationship>)
    requires AllValid(left) && AllValid(right) && multiset(Texts(left)) == multiset(Texts(right))
    ensures multiset(left) == multiset(right)
  {
    hide ValidRelationship, Text;
    forall x ensures multiset(left)[x] == multiset(right)[x] {
      if x in left || x in right {
        CountedByText(left, x);
        CountedByText(right, x);
      }
    }
  }

  ghost predicate AllFit(relationships: seq<Relationship>) {
    forall i :: 0 <= i < |relationships| ==> |Text(relationships[i])| <= MAX_RELATIONSHIP_BYTES
  }

  lemma ParsedTexts(statements: seq<string>, relationships: seq<Relationship>)
    requires AllParse(statements, relationships)
    ensures AllValid(relationships) && Texts(relationships) == statements && AllFit(relationships)
  {
    hide ParseFields, Text, ValidRelationship;
    forall i | 0 <= i < |statements| ensures ValidRelationship(relationships[i]) && Text(relationships[i]) == statements[i] {
      AcceptedTextIsCanonical(statements[i]);
    }
  }

  /** A policy exported and read back holds the same relationships, each as often as before; it fails to read
      exactly if some relationship prints past the limit. */
  method ExportThenImport(relationships: seq<Relationship>) returns (r: Result<seq<Relationship>, DomainError>)
    requires AllValid(relationships)
    ensures r.Ok? <==> AllFit(relationships)
    ensures r.Ok? ==> multiset(r.value) == multiset(relationships)
    ensures r.Err? ==> r.error == TextTooLong(MAX_RELATIONSHIP_BYTES)
  {
    hide ParseRelationship, Text, ValidRelationship, Exports, FileStatements;
    var files := RelationshipFiles(relationships);
    ghost var types :| Exports(types, files, relationships);
    ExportHoldsTheTexts(types, files, relationships);
    r := ParseRelationships(files);
    if r.Ok? {
      ParsedTexts(FileStatements(files), r.value);
      SameTextsSameRelationships(r.value, relationships);
      FitIsByMembers(r.value, relationships);
    } else {
      var statement :| statement in FileStatements(files) && ParseRelationship(statement) == Err(r.error);
      assert statement in multiset(Texts(relationships));
      var i :| 0 <= i < |relationships| && Texts(relationships)[i] == statement;
      RelationshipRoundTrip(relationships[i]);
    }
  }

  lemma FitIsByMembers(left: seq<Relationship>, right: seq<Relationship>)
    requires multiset(left) == multiset(right) && AllFit(left)
    ensures AllFit(right)
  {
    hide Text;
    forall i | 0 <= i < |right| ensures |Text(right[i])| <= MAX_RELATIONSHIP_BYTES {
      assert right[i] in multiset(left);
    }
  }

  // ---------------------------------------------------------------- canonical form

  lemma {:induction false} SelectionCounts(relationships: seq<Relationship>, keep: Relationship -> bool, x: Relationship)
    ensures multiset(Select(relationships, keep))[x] == if keep(x) then multiset(relationships)[x] else 0
  {
    if relationships != [] {
      SelectionCounts(relationships[1..], keep, x);
      assert relationships == [relationships[0]] + relationships[1..];
    }
  }

  lemma SameGroup(left: seq<Relationship>, right: seq<Relationship>, objectType: string)
    requires AllValid(left) && AllValid(right) && multiset(left) == multiset(right)
    ensures FileOf(objectType, left) == FileOf(objectType, right)
  {
    hide ValidRelationship, Text;
    var keep := OfType(objectType);
    var here, there := Select(left, keep), Select(right, keep);
    SelectedValid(left, keep);
    SelectedValid(right, keep);
    forall x ensures multiset(here)[x] == multiset(there)[x] {
      SelectionCounts(left, keep, x);
      SelectionCounts(right, keep, x);
    }
    assert multiset(here) == multiset(there);
    SameRelationshipsSameTexts(here, there);
    SortingSorts(Texts(here));
    SortingSorts(Texts(there));
    OrderedLinesAreEqual(Sorted(Texts(here)), Sorted(Texts(there)));
  }

  lemma SameRelationshipsSameTexts(left: seq<Relationship>, right: seq<Relationship>)
    requires AllValid(left) && AllValid(right) && multiset(left) == multiset(right)
    ensures multiset(Texts(left)) == multiset(Texts(right))
  {
    hide ValidRelationship, Text;
    forall line ensures multiset(Texts(left))[line] == multiset(Texts(right))[line] {
      if i :| 0 <= i < |left| && Texts(left)[i] == line {
        CountedByText(left, left[i]);
        assert left[i] in multiset(right);
        CountedByText(right, left[i]);
      } else if j :| 0 <= j < |right| && Texts(right)[j] == line {
        CountedByText(right, right[j]);
        assert right[j] in multiset(left);
        CountedByText(left, right[j]);
      }
    }
  }

  /** The export depends only on which relationships there are, not on the order they came in. */
  lemma ExportIsCanonical(left: seq<Relationship>, leftTypes: seq<string>, leftFiles: seq<PolicyTextFile>,
                          right: seq<Relationship>, rightTypes: seq<string>, rightFiles: seq<PolicyTextFile>)
    requires AllValid(left) && AllValid(right) && multiset(left) == multiset(right)
    requires Exports(leftTypes, leftFiles, left) && Exports(rightTypes, rightFiles, right)
    ensures leftFiles == rightFiles
  {
    hide AllValid, FileOf;
    forall x ensures x in left <==> x in right {
      assert x in left <==> x in multiset(left);
      assert x in right <==> x in multiset(right);
    }
    assert TypesOf(left) == TypesOf(right);
    SameSetSameTypes(leftTypes, rightTypes);
    forall i | 0 <= i < |leftTypes| ensures FileOf(leftTypes[i], left) == FileOf(leftTypes[i], right) {
      SameGroup(left, right, leftTypes[i]);
    }
  }

  lemma SameSetSameTypes(left: seq<string>, right: seq<string>)
    requires InOrder(left) && InOrder(right)
    requires Distinct(left)
    requires Distinct(right)
    requires forall value :: value in left <==> value in right
    ensures left == right
  {
    forall value ensures multiset(left)[value] == multiset(right)[value] {
      CountedOnce(left, value);
      CountedOnce(right, value);
    }
    OrderedLinesAreEqual(left, right);
  }

  lemma {:induction false} CountedOnce(values: seq<string>, value: string)
    requires Distinct(values)
    ensures multiset(values)[value] == if value in values then 1 else 0
  {
    if values != [] {
      CountedOnce(values[1..], value);
      assert values == [values[0]] + values[1..];
    }
  }
}
