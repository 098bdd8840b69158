// Stack<int> over a vector, and SortedStack<int>, whose Push keeps the
// smallest element on top by popping larger ones and pushing them back.
module Stacks {

  /** The stack's elements from bottom to top never increase: the top is the smallest. */
  predicate NonIncreasing(s: seq<int>)
  {
    forall i, j :: 0 <= i < j < |s| ==> s[i] >= s[j]
  }

  /** Where SortedStack::Push puts x: below every element that is smaller than x, above the rest. */
  function InsertSorted(s: seq<int>, x: int): seq<int>
    decreases |s|
  {
    if s == [] || !(s[|s| - 1] < x) then s + [x]
    else InsertSorted(s[..|s| - 1], x) + [s[|s| - 1]]
  }

  /** Inserting adds exactly x: one element more, the same ones besides. */
  lemma {:induction false} InsertSortedCounts(s: seq<int>, x: int)
    ensures |InsertSorted(s, x)| == |s| + 1
    ensures multiset(InsertSorted(s, x)) == multiset(s) + multiset{x}
    decreases |s|
  {
    if s != [] && s[|s| - 1] < x {
      assert s == s[..|s| - 1] + [s[|s| - 1]];
      InsertSortedCounts(s[..|s| - 1], x);
    }
  }

  /** Every element of a non-increasing stack is at least its top. */
  lemma TopIsLeast(s: seq<int>, y: int)
    requires NonIncreasing(s) && s != [] && y in s
    ensures s[|s| - 1] <= y
  {
    var k :| 0 <= k < |s| && s[k] == y;
  }

  /** On a non-increasing stack the top is at most every element. */
  lemma TopIsLeastAll(s: seq<int>)
    requires NonIncreasing(s) && s != []
    ensures forall y :: y in s ==> s[|s| - 1] <= y
  {
    forall y | y in s
      ensures s[|s| - 1] <= y
    {
      TopIsLeast(s, y);
    }
  }

  /** Dropping the top of a non-increasing stack leaves it non-increasing. */
  lemma PrefixNonIncreasing(s: seq<int>)
    requires NonIncreasing(s) && s != []
    ensures NonIncreasing(s[..|s| - 1])
  {
  }

  /** A push onto a non-increasing stack leaves it non-increasing, one longer, with a top no larger than x. */
  lemma InsertSortedTop(s: seq<int>, x: int)
    requires NonIncreasing(s)
    ensures var r := InsertSorted(s, x);
      NonIncreasing(r) && |r| == |s| + 1 && r[|r| - 1] <= x
  {
    InsertSortedOrdered(s, x);
    InsertSortedCounts(s, x);
  }

  /** Inserting keeps a non-increasing stack non-increasing. */
  lemma {:induction false} InsertSortedOrdered(s: seq<int>, x: int)
    requires NonIncreasing(s)
    ensures NonIncreasing(InsertSorted(s, x))
    decreases |s|
  {
    var r := InsertSorted(s, x);
    if s != [] && s[|s| - 1] < x {
      var init, last := s[..|s| - 1], s[|s| - 1];
      assert NonIncreasing(init) by {
        forall a, b | 0 <= a < b < |init|
          ensures init[a] >= init[b]
        {
          assert init[a] == s[a] && init[b] == s[b];
        }
      }
      InsertSortedOrdered(init, x);
      InsertSortedCounts(init, x);
      var front := InsertSorted(init, x);
      forall i | 0 <= i < |front|
        ensures front[i] >= last
      {
        assert front[i] in multiset(init) + multiset{x};
        if front[i] != x {
          assert front[i] in init;
          assert s == init + [last];
          TopIsLeast(s, front[i]);
        }
      }
    } else if s != [] {
      forall i | 0 <= i < |s|
        ensures s[i] >= x
      {
        TopIsLeast(s, s[i]);
      }
    }
  }

  /** Stack<Type> with Type = int: a vector whose back is the top. */
  class Stack {
    var elements: seq<int>

    constructor ()
      ensures elements == [] && Size() == 0 && IsEmpty()
    {
      elements := [];
    }

    /** Push: the element goes on top, so Peek sees it and the size grows by one. */
    method Push(element: int)
      modifies this
      ensures elements == old(elements) + [element]
      ensures Peek() == element && Size() == old(Size()) + 1 && !IsEmpty()
    {
      elements := elements + [element];
    }

    /**
     * Pop: the top element goes and the one below it becomes the top;
     * pop_back on an empty vector is undefined, so the stack must not be empty.
     */
    method Pop()
      requires !IsEmpty()
      modifies this
      ensures elements == old(elements)[..|old(elements)| - 1]
      ensures Size() == old(Size()) - 1
      ensures IsEmpty() <==> old(Size()) == 1
      ensures !IsEmpty() ==> Peek() == old(elements)[old(Size()) - 2]
    {
      elements := elements[..|elements| - 1];
    }

    /** Peek: the top element. */
    function Peek(): int
      reads this
      requires !IsEmpty()
    {
      elements[|elements| - 1]
    }

    function Size(): nat
      reads this
    {
      |elements|
    }

    function IsEmpty(): bool
      reads this
    {
      |elements| == 0
    }
  }

  /** SortedStack<Type> with Type = int: a Stack whose Push keeps the smallest element on top. */
  class SortedStack {
    const elements: Stack

    /** The stack never increases from bottom to top, so its top is its least element. */
    ghost predicate Valid()
      reads this, elements
    {
      NonIncreasing(Contents())
    }

    constructor ()
      ensures fresh(elements) && Contents() == [] && Valid()
    {
      elements := new Stack();
    }

    /** Contents from bottom to top. */
    function Contents(): seq<int>
      reads this, elements
    {
      elements.elements
    }

    /**
     * Push: if the top is smaller than the element, pop it, push the element
     * recursively and put the old top back; otherwise push the element.
     * The stack stays sorted and its new top is at most the element.
     */
    method Push(element: int)
      requires Valid()
      modifies elements
      ensures Valid()
      ensures Contents() == InsertSorted(old(Contents()), element)
      ensures Size() == old(Size()) + 1 && Peek() <= element
      decreases |elements.elements|
    {
      ghost var before := Contents();
      InsertSortedTop(before, element);
      if elements.IsEmpty() {
        elements.Push(element);
        return;
      }
      var lastElem := elements.Peek();
      if lastElem < element {
        elements.Pop();
        PrefixNonIncreasing(before);
        Push(element);
        elements.Push(lastElem);
      } else {
        elements.Push(element);
      }
    }

    /** Pop: the smallest element leaves the top; what remains is still sorted. */
    method Pop()
      requires Valid() && !IsEmpty()
      modifies elements
      ensures Valid()
      ensures Contents() == old(Contents())[..|old(Contents())| - 1]
      ensures Size() == old(Size()) - 1
      ensures forall y :: y in Contents() ==> old(Peek()) <= y
    {
      elements.Pop();
    }

    /** Peek: the top element, which on a sorted stack is its least element. */
    function Peek(): (top: int)
      reads this, elements
      requires Valid() && !IsEmpty()
      ensures top in Contents()
      ensures forall y :: y in Contents() ==> top <= y
    {
      TopIsLeastAll(Contents());
      elements.Peek()
    }

    function Size(): nat
      reads this, elements
    {
      elements.Size()
    }

    function IsEmpty(): bool
      reads this, elements
    {
      elements.IsEmpty()
    }
  }

  /** A sequence of SortedStack pushes leaves the stack non-increasing and holding exactly the pushed values. */
  lemma {:induction false} PushesSorted(s: seq<int>, xs: seq<int>)
    requires NonIncreasing(s)
    ensures NonIncreasing(PushAll(s, xs))
    ensures multiset(PushAll(s, xs)) == multiset(s) + multiset(xs)
    decreases |xs|
  {
    if xs != [] {
      InsertSortedCounts(s, xs[0]);
      InsertSortedOrdered(s, xs[0]);
      PushesSorted(InsertSorted(s, xs[0]), xs[1..]);
      assert xs == [xs[0]] + xs[1..];
    }
  }

  /** The stack after pushing each of xs in turn. */
  function PushAll(s: seq<int>, xs: seq<int>): seq<int>
    decreases |xs|
  {
    if xs == [] then s else PushAll(InsertSorted(s, xs[0]), xs[1..])
  }
}
