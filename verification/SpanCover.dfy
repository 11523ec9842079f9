/** The check that the spans of a section cover it exactly. */
module SpanCover {
  import opened Vocabulary
  import opened SnapshotBytes

  datatype Span = Span(start: nat, end: nat)

  predicate Holds(span: Span, offset: nat) { span.start <= offset < span.end }

  /** How many spans hold an offset. */
  function Hits(spans: seq<Span>, offset: nat): nat {
    if spans == [] then 0 else (if Holds(spans[0], offset) then 1 else 0) + Hits(spans[1..], offset)
  }

  predicate Before(left: Span, right: Span) {
    left.start < right.start || (left.start == right.start && left.end <= right.end)
  }

  predicate InOrder(spans: seq<Span>) {
    |spans| > 1 ==> Before(spans[0], spans[1]) && InOrder(spans[1..])
  }

  /** Sorting by start and then end, span by span. */
  function InsertSpan(sorted: seq<Span>, span: Span): seq<Span> {
    if sorted == [] then [span]
    else if Before(span, sorted[0]) then [span] + sorted
    else [sorted[0]] + InsertSpan(sorted[1..], span)
  }

  function SortSpans(spans: seq<Span>): seq<Span> {
    if spans == [] then [] else InsertSpan(SortSpans(spans[1..]), spans[0])
  }

  lemma {:induction false} InsertKeeps(sorted: seq<Span>, span: Span, offset: nat)
    requires InOrder(sorted)
    ensures InOrder(InsertSpan(sorted, span))
    ensures Hits(InsertSpan(sorted, span), offset) == Hits(sorted, offset) + (if Holds(span, offset) then 1 else 0)
    ensures forall other :: other in InsertSpan(sorted, span) <==> other in sorted || other == span
  {
    if sorted == [] {
    } else if Before(span, sorted[0]) {
      assert ([span] + sorted)[1..] == sorted;
    } else {
      InsertKeeps(sorted[1..], span, offset);
      var rest := InsertSpan(sorted[1..], span);
      assert ([sorted[0]] + rest)[1..] == rest;
      assert sorted == [sorted[0]] + sorted[1..];
    }
  }

  lemma {:induction false} SortKeeps(spans: seq<Span>, offset: nat)
    ensures InOrder(SortSpans(spans)) && Hits(SortSpans(spans), offset) == Hits(spans, offset)
    ensures forall span :: span in SortSpans(spans) <==> span in spans
  {
    if spans != [] {
      SortKeeps(spans[1..], offset);
      InsertKeeps(SortSpans(spans[1..]), spans[0], offset);
      assert spans == [spans[0]] + spans[1..];
    }
  }

  predicate Contiguous(spans: seq<Span>, cursor: nat, total: nat) {
    if spans == [] then cursor == total
    else spans[0].start == cursor && spans[0].start <= spans[0].end && Contiguous(spans[1..], spans[0].end, total)
  }

  lemma {:induction false} ContiguousCovers(spans: seq<Span>, cursor: nat, total: nat, offset: nat)
    requires Contiguous(spans, cursor, total)
    ensures cursor <= total && Hits(spans, offset) == if cursor <= offset < total then 1 else 0
    decreases |spans|
  {
    if spans != [] {
      ContiguousCovers(spans[1..], spans[0].end, total, offset);
    }
  }

  lemma {:induction false} LaterStarts(spans: seq<Span>, i: nat)
    requires InOrder(spans) && i < |spans|
    ensures spans[0].start <= spans[i].start
  {
    if i > 0 {
      LaterStarts(spans[1..], i - 1);
    }
  }

  lemma {:induction false} HeldSomewhere(spans: seq<Span>, offset: nat)
    ensures Hits(spans, offset) > 0 <==> exists i :: 0 <= i < |spans| && Holds(spans[i], offset)
  {
    if spans != [] {
      HeldSomewhere(spans[1..], offset);
      if Hits(spans[1..], offset) > 0 {
        var i :| 0 <= i < |spans[1..]| && Holds(spans[1..][i], offset);
        assert Holds(spans[i + 1], offset);
      }
      if i :| 0 <= i < |spans| && Holds(spans[i], offset) {
        assert i > 0 ==> Holds(spans[1..][i - 1], offset);
      }
    }
  }

  ghost predicate CoversOnce(spans: seq<Span>, cursor: nat, total: nat) {
    forall offset: nat :: Hits(spans, offset) == if cursor <= offset < total then 1 else 0
  }

  /** Nonempty spans that cover every offset once, in order, leave no gap. */
  lemma {:induction false} CoveringIsContiguous(spans: seq<Span>, cursor: nat, total: nat)
    requires InOrder(spans) && cursor <= total && CoversOnce(spans, cursor, total)
    requires forall i :: 0 <= i < |spans| ==> spans[i].start < spans[i].end
    ensures Contiguous(spans, cursor, total)
    decreases |spans|
  {
    if spans == [] {
      assert Hits(spans, cursor) == 0;
    } else {
      var first, rest := spans[0], spans[1..];
      assert Hits(spans, first.start) > 0;
      if first.start > cursor {
        forall i | 0 <= i < |spans| ensures !Holds(spans[i], cursor) { LaterStarts(spans, i); }
        HeldSomewhere(spans, cursor);
        assert false;
      }
      assert Hits(spans, first.end - 1) > 0;
      forall offset: nat ensures Hits(rest, offset) == if first.end <= offset < total then 1 else 0 {
        assert Hits(spans, offset) == (if Holds(first, offset) then 1 else 0) + Hits(rest, offset);
      }
      CoveringIsContiguous(rest, first.end, total);
    }
  }

  /** In some order the spans follow one another from 0 to `total`; empty ones may stand anywhere between. */
  ghost predicate Tiles(spans: seq<Span>, total: nat) {
    exists ordered :: multiset(ordered) == multiset(spans) && Contiguous(ordered, 0, total)
  }

  lemma {:induction false} InsertPermutes(sorted: seq<Span>, span: Span)
    ensures multiset(InsertSpan(sorted, span)) == multiset(sorted) + multiset{span}
  {
    if sorted != [] {
      assert sorted == [sorted[0]] + sorted[1..];
      if !Before(span, sorted[0]) {
        InsertPermutes(sorted[1..], span);
      }
    }
  }

  lemma {:induction false} SortPermutes(spans: seq<Span>)
    ensures multiset(SortSpans(spans)) == multiset(spans)
  {
    if spans != [] {
      SortPermutes(spans[1..]);
      InsertPermutes(SortSpans(spans[1..]), spans[0]);
      assert spans == [spans[0]] + spans[1..];
    }
  }

  lemma {:induction false} ContiguousIsOrdered(spans: seq<Span>, cursor: nat, total: nat)
    requires Contiguous(spans, cursor, total)
    ensures InOrder(spans)
    decreases |spans|
  {
    if spans != [] {
      ContiguousIsOrdered(spans[1..], spans[0].end, total);
    }
  }

  lemma {:induction false} FirstIsBefore(spans: seq<Span>, span: Span)
    requires InOrder(spans) && span in spans
    ensures Before(spans[0], span)
  {
    if span != spans[0] {
      FirstIsBefore(spans[1..], span);
    }
  }

  /** There is one way to order spans. */
  lemma {:induction false} OrderedOnce(left: seq<Span>, right: seq<Span>)
    requires InOrder(left) && InOrder(right) && multiset(left) == multiset(right)
    ensures left == right
    decreases |left|
  {
    assert |left| == |multiset(left)| == |multiset(right)| == |right|;
    if left != [] {
      assert left[0] in multiset(left) && right[0] in multiset(right);
      assert left[0] in right && right[0] in left;
      FirstIsBefore(left, right[0]);
      FirstIsBefore(right, left[0]);
      assert left == [left[0]] + left[1..] && right == [right[0]] + right[1..];
      assert multiset(left[1..]) == multiset(left) - multiset{left[0]};
      assert multiset(right[1..]) == multiset(right) - multiset{right[0]};
      OrderedOnce(left[1..], right[1..]);
    }
  }

  /** Sorting finds the order in which spans tile, if there is one. */
  lemma SortingFindsTheTiling(spans: seq<Span>, total: nat)
    ensures Tiles(spans, total) <==> Contiguous(SortSpans(spans), 0, total)
  {
    SortKeeps(spans, 0);
    SortPermutes(spans);
    if Tiles(spans, total) {
      var ordered :| multiset(ordered) == multiset(spans) && Contiguous(ordered, 0, total);
      ContiguousIsOrdered(ordered, 0, total);
      OrderedOnce(ordered, SortSpans(spans));
    }
  }

  /** Nonempty spans tile exactly if they cover every offset once. */
  lemma CoveringTiles(spans: seq<Span>, total: nat)
    requires forall i :: 0 <= i < |spans| ==> spans[i].start < spans[i].end
    ensures Tiles(spans, total) <==> CoversOnce(spans, 0, total)
  {
    hide Hits, InOrder;
    var sorted := SortSpans(spans);
    SortingFindsTheTiling(spans, total);
    SortKeeps(spans, 0);
    forall offset: nat ensures Hits(sorted, offset) == Hits(spans, offset) {
      SortKeeps(spans, offset);
    }
    forall i | 0 <= i < |sorted| ensures sorted[i].start < sorted[i].end {
      assert sorted[i] in sorted;
    }
    if CoversOnce(spans, 0, total) {
      CoveringIsContiguous(sorted, 0, total);
    }
    if Contiguous(sorted, 0, total) {
      TilesCoverOnce(spans, total);
    }
  }

  /** Tiling spans cover every offset exactly once and nothing beyond. */
  lemma TilesCoverOnce(spans: seq<Span>, total: nat)
    requires Tiles(spans, total)
    ensures CoversOnce(spans, 0, total)
  {
    SortingFindsTheTiling(spans, total);
    forall offset: nat ensures Hits(spans, offset) == if 0 <= offset < total then 1 else 0 {
      SortKeeps(spans, offset);
      ContiguousCovers(SortSpans(spans), 0, total, offset);
    }
  }

  /** Accepts exactly the spans that tile the section. */
  method ValidateSpansCover(spans: seq<Span>, total: nat) returns (r: Result<(), FormatError>)
    ensures r.Ok? <==> Tiles(spans, total)
  {
    hide InOrder, InsertSpan;
    SortingFindsTheTiling(spans, total);
    var sorted := SortSpans(spans);
    var cursor := 0;
    for i := 0 to |sorted|
      invariant Contiguous(sorted, 0, total) <==> Contiguous(sorted[i..], cursor, total)
    {
      assert sorted[i..][1..] == sorted[i + 1..];
      if sorted[i].start > sorted[i].end || sorted[i].start != cursor {
        return Err(SpansDoNotCover);
      }
      cursor := sorted[i].end;
    }
    if cursor != total {
      return Err(SpansDoNotCover);
    }
    r := Ok(());
  }
}
