/** Texts in byte order: one way to sort them. */
module TextOrder {
  /** Byte order on text. */
  predicate AtOrBelow(left: string, right: string) {
    if left == "" then true
    else if right == "" then false
    else left[0] < right[0] || (left[0] == right[0] && AtOrBelow(left[1..], right[1..]))
  }

  lemma {:induction false} OrderIsTotal(left: string, right: string)
    ensures AtOrBelow(left, right) || AtOrBelow(right, left)
    ensures AtOrBelow(left, right) && AtOrBelow(right, left) ==> left == right
  {
    if left != "" && right != "" && left[0] == right[0] {
      OrderIsTotal(left[1..], right[1..]);
      assert left == [left[0]] + left[1..] && right == [right[0]] + right[1..];
    }
  }

  lemma {:induction false} OrderIsTransitive(left: string, middle: string, right: string)
    requires AtOrBelow(left, middle) && AtOrBelow(middle, right)
    ensures AtOrBelow(left, right)
  {
    if left != "" && left[0] == middle[0] == right[0] {
      OrderIsTransitive(left[1..], middle[1..], right[1..]);
    }
  }

  ghost predicate InOrder(lines: seq<string>) {
    forall i, j :: 0 <= i < j < |lines| ==> AtOrBelow(lines[i], lines[j])
  }

  ghost predicate Distinct(lines: seq<string>) {
    forall i, j :: 0 <= i < j < |lines| ==> lines[i] != lines[j]
  }

  function Inserted(line: string, lines: seq<string>): seq<string> {
    if lines == [] || AtOrBelow(line, lines[0]) then [line] + lines else [lines[0]] + Inserted(line, lines[1..])
  }

  function Sorted(lines: seq<string>): seq<string> {
    if lines == [] then [] else Inserted(lines[0], Sorted(lines[1..]))
  }

  lemma {:induction false} InsertionAddsOne(line: string, lines: seq<string>)
    ensures multiset(Inserted(line, lines)) == multiset(lines) + multiset{line}
    ensures forall other :: other in Inserted(line, lines) <==> other == line || other in lines
  {
    hide AtOrBelow;
    if lines != [] {
      assert lines == [lines[0]] + lines[1..];
      if !AtOrBelow(line, lines[0]) {
        InsertionAddsOne(line, lines[1..]);
      }
    }
  }

  ghost predicate AllAtOrAbove(lines: seq<string>, floor: string) {
    forall i :: 0 <= i < |lines| ==> AtOrBelow(floor, lines[i])
  }

  lemma OrderedWithHead(line: string, lines: seq<string>)
    requires InOrder(lines) && AllAtOrAbove(lines, line)
    ensures InOrder([line] + lines)
  {
    hide AtOrBelow;
  }

  lemma {:induction false} InsertionKeepsOrder(line: string, lines: seq<string>)
    requires InOrder(lines)
    ensures InOrder(Inserted(line, lines))
  {
    hide AtOrBelow;
    if lines == [] {
    } else if AtOrBelow(line, lines[0]) {
      forall j | 0 <= j < |lines| ensures AtOrBelow(line, lines[j]) {
        if j > 0 {
          OrderIsTransitive(line, lines[0], lines[j]);
        }
      }
      OrderedWithHead(line, lines);
    } else {
      var rest := Inserted(line, lines[1..]);
      OrderIsTotal(line, lines[0]);
      InsertionAddsOne(line, lines[1..]);
      InsertionKeepsOrder(line, lines[1..]);
      forall i | 0 <= i < |rest| ensures AtOrBelow(lines[0], rest[i]) {
        assert rest[i] in rest;
      }
      OrderedWithHead(lines[0], rest);
    }
  }

  lemma {:induction false} SortingSorts(lines: seq<string>)
    ensures InOrder(Sorted(lines)) && multiset(Sorted(lines)) == multiset(lines)
  {
    if lines != [] {
      SortingSorts(lines[1..]);
      InsertionKeepsOrder(lines[0], Sorted(lines[1..]));
      InsertionAddsOne(lines[0], Sorted(lines[1..]));
      assert lines == [lines[0]] + lines[1..];
    }
  }

  lemma HeadIsLowest(left: seq<string>, right: seq<string>)
    requires left != [] && InOrder(left) && right != [] && multiset(left) == multiset(right)
    ensures AtOrBelow(left[0], right[0])
  {
    hide AtOrBelow;
    OrderIsTotal(left[0], left[0]);
    assert right[0] in multiset(left);
    var i :| 0 <= i < |left| && left[i] == right[0];
  }

  /** Lines have one order: equal multisets sort alike. */
  lemma {:induction false} OrderedLinesAreEqual(left: seq<string>, right: seq<string>)
    requires InOrder(left) && InOrder(right) && multiset(left) == multiset(right)
    ensures left == right
  {
    hide AtOrBelow;
    assert |left| == |multiset(left)| == |multiset(right)| == |right|;
    if left != [] {
      HeadIsLowest(left, right);
      HeadIsLowest(right, left);
      OrderIsTotal(left[0], right[0]);
      assert left == [left[0]] + left[1..] && right == [right[0]] + right[1..];
      assert multiset(left[1..]) == multiset(left) - multiset{left[0]};
      assert multiset(right[1..]) == multiset(right) - multiset{right[0]};
      OrderedLinesAreEqual(left[1..], right[1..]);
    }
  }
}
