// FindNearestElement over a std::set<int>. The set is its elements in
// increasing order and an iterator is an index into them, |contain| being end().
module Nearest {

  /** A std::set<int> iterates in strictly increasing order. */
  predicate Increasing(s: seq<int>)
  {
    forall i, j :: 0 <= i < j < |s| ==> s[i] < s[j]
  }

  function Abs(x: int): int
  {
    if x < 0 then -x else x
  }

  /** std::lower_bound: the position of the first element not below x, or end(). */
  function LowerBound(s: seq<int>, x: int): (i: nat)
    requires Increasing(s)
    ensures i <= |s|
    ensures forall k :: 0 <= k < i ==> s[k] < x
    ensures forall k :: i <= k < |s| ==> s[k] >= x
    decreases |s|
  {
    if s == [] || s[0] >= x then 0
    else
      var rest := LowerBound(s[1..], x);
      assert forall k :: 1 <= k < |s| ==> s[k] == s[1..][k - 1];
      1 + rest
  }

  /** std::upper_bound: the position of the first element above x, or end(). */
  function UpperBound(s: seq<int>, x: int): (i: nat)
    requires Increasing(s)
    ensures i <= |s|
    ensures forall k :: 0 <= k < i ==> s[k] <= x
    ensures forall k :: i <= k < |s| ==> s[k] > x
    decreases |s|
  {
    if s == [] || s[0] > x then 0
    else
      var rest := UpperBound(s[1..], x);
      assert forall k :: 1 <= k < |s| ==> s[k] == s[1..][k - 1];
      1 + rest
  }

  /**
   * FindNearestElement as written: both candidates are taken at or after
   * numb (lower_bound and upper_bound), each moved back to the last element
   * when it is end(), and the closer one is returned, lower_iter on a tie.
   */
  function FindNearestElementAsWritten(contain: seq<int>, numb: int): (r: nat)
    requires Increasing(contain)
    ensures r <= |contain| && (r == |contain| <==> contain == [])
  {
    if contain == [] then |contain|
    else
      var upperIter := UpperBound(contain, numb);
      var lowerIter := LowerBound(contain, numb);
      var upperIter := if upperIter == |contain| then upperIter - 1 else upperIter;
      var lowerIter := if lowerIter == |contain| then lowerIter - 1 else lowerIter;
      var upper := contain[upperIter];
      var lower := contain[lowerIter];
      if Abs(lower - numb) <= Abs(upper - numb) then lowerIter else upperIter
  }

  /**
   * What the code as written computes: the first element not below numb,
   * or the last element when there is none. The element just below numb is
   * never looked at, unless every element is below numb.
   */
  lemma AsWrittenIsClampedLowerBound(contain: seq<int>, numb: int)
    requires Increasing(contain) && contain != []
    ensures var l := LowerBound(contain, numb);
      FindNearestElementAsWritten(contain, numb) == if l == |contain| then |contain| - 1 else l
  {
    BoundsOrdered(contain, numb);
  }

  /** lower_bound never comes after upper_bound. */
  lemma {:induction false} BoundsOrdered(s: seq<int>, x: int)
    requires Increasing(s)
    ensures LowerBound(s, x) <= UpperBound(s, x)
    decreases |s|
  {
    if s != [] && s[0] < x {
      BoundsOrdered(s[1..], x);
    }
  }

  /** The set {1, 10} and numb 2: the code returns 10, although 1 is nearer. */
  lemma AsWrittenMissesNearerPredecessor()
    ensures Increasing([1, 10])
    ensures var r := FindNearestElementAsWritten([1, 10], 2);
      r == 1 && [1, 10][r] == 10 && Abs(1 - 2) < Abs(10 - 2)
  {
    assert LowerBound([1, 10], 2) == 1 by {
      assert [1, 10][1..] == [10];
    }
    assert UpperBound([1, 10], 2) == 1 by {
      assert [1, 10][1..] == [10];
    }
  }

  /**
   * FindNearestElement as evidently intended: compare the last element below
   * numb with the first element not below it; on a tie the smaller one wins.
   */
  function FindNearestElement(contain: seq<int>, numb: int): (r: nat)
    requires Increasing(contain)
    ensures r <= |contain| && (r == |contain| <==> contain == [])
  {
    if contain == [] then |contain|
    else
      var l := LowerBound(contain, numb);
      if l == 0 then 0
      else if l == |contain| then |contain| - 1
      else if numb - contain[l - 1] <= contain[l] - numb then l - 1
      else l
  }

  /** The corrected lookup returns an element of least distance to numb, the smaller one on a tie. */
  lemma FindNearestElementCorrect(contain: seq<int>, numb: int)
    requires Increasing(contain) && contain != []
    ensures var r := FindNearestElement(contain, numb);
      && r < |contain|
      && (forall k :: 0 <= k < |contain| ==> Abs(contain[r] - numb) <= Abs(contain[k] - numb))
      && (forall k :: 0 <= k < |contain| && Abs(contain[k] - numb) == Abs(contain[r] - numb) ==> contain[r] <= contain[k])
  {
    var r := FindNearestElement(contain, numb);
    var l := LowerBound(contain, numb);
    forall k | 0 <= k < |contain|
      ensures Abs(contain[r] - numb) <= Abs(contain[k] - numb)
      ensures Abs(contain[k] - numb) == Abs(contain[r] - numb) ==> contain[r] <= contain[k]
    {
      if k < l {
        assert contain[k] <= contain[l - 1];
      } else {
        assert contain[l] <= contain[k];
      }
    }
  }
}
