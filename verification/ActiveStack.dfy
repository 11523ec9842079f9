/** The stack of keys under evaluation, with the generation-stamped index that answers "is this key
    active" once the stack is deep. */
module ActiveStack {

  const ACTIVE_INDEX_THRESHOLD := 8
  const MAX_GENERATION := 0xFFFF_FFFF

  datatype VisitMark = VisitMark(generation: nat, active: bool)

  ghost predicate Distinct<K>(items: seq<K>) {
    forall i, j :: 0 <= i < j < |items| ==> items[i] != items[j]
  }

  class ActiveStack<K(==,!new)> {
    var stack: seq<K>
    var marks: map<K, VisitMark>
    var generation: nat
    var useIndexes: bool

    predicate Marked(key: K)
      reads this
    {
      key in marks && marks[key].generation == generation && marks[key].active
    }

    /** The stack is duplicate-free, only active keys carry a live mark, and from the threshold on
        every active key carries one. */
    ghost predicate Valid()
      reads this
    {
      && 1 <= generation <= MAX_GENERATION
      && Distinct(stack)
      && (forall key :: key in marks ==> marks[key].generation <= generation)
      && (forall key :: Marked(key) ==> key in stack)
      && (useIndexes && |stack| >= ACTIVE_INDEX_THRESHOLD ==> forall key :: key in stack ==> Marked(key))
    }

    constructor ()
      ensures Valid() && stack == [] && !useIndexes
    {
      stack, marks, generation, useIndexes := [], map[], 1, false;
    }

    /** The index and the stack never disagree. */
    predicate IsActive(key: K)
      requires Valid()
      reads this
      ensures IsActive(key) <==> key in stack
    {
      if !useIndexes || |stack| < ACTIVE_INDEX_THRESHOLD then key in stack
      else Marked(key)
    }

    method Push(key: K)
      requires Valid() && key !in stack
      modifies this
      ensures Valid()
      ensures stack == old(stack) + [key] && useIndexes == old(useIndexes) && generation == old(generation)
    {
      if useIndexes && |stack| + 1 >= ACTIVE_INDEX_THRESHOLD {
        if |stack| + 1 == ACTIVE_INDEX_THRESHOLD {
          Rebuild();
        }
        marks := marks[key := VisitMark(generation, true)];
      }
      stack := stack + [key];
    }

    method Rebuild()
      requires Valid()
      modifies this`marks
      ensures Valid() && forall key :: key in stack ==> Marked(key)
    {
      for i := 0 to |stack|
        invariant Valid()
        invariant forall k :: 0 <= k < i ==> Marked(stack[k])
      {
        marks := marks[stack[i] := VisitMark(generation, true)];
      }
    }

    method Pop()
      requires Valid()
      modifies this
      ensures Valid()
      ensures stack == if old(stack) == [] then [] else old(stack)[..|old(stack)| - 1]
      ensures useIndexes == old(useIndexes) && generation == old(generation)
    {
      if stack != [] {
        var key := stack[|stack| - 1];
        stack := stack[..|stack| - 1];
        assert old(stack) == stack + [key];
        assert forall other :: other in old(stack) <==> other in stack || other == key;
        if key in marks && marks[key].generation == generation {
          marks := marks[key := VisitMark(generation, false)];
        }
      }
    }

    /** Prepares the stack for another request: old marks are outdated by the new generation, or
        dropped when the generation counter wraps. */
    method Reset()
      requires Valid()
      modifies this
      ensures Valid() && stack == [] && useIndexes
      ensures generation == if old(generation) < MAX_GENERATION then old(generation) + 1 else 1
    {
      useIndexes := true;
      stack := [];
      if generation < MAX_GENERATION {
        generation := generation + 1;
      } else {
        generation := 1;
        marks := map[];
      }
    }
  }
}
