// The last two steps of FindTopDocuments: order the matched documents with
// the source's comparator and keep at most MaxResultDocumentCount of them.
module Ranking {

  const MaxResultDocumentCount: nat := 5

  /** Relevances closer than this are treated as equal and the rating decides. */
  const RelevanceTolerance: real := 0.000001

  /** One search hit: the document, its TF-IDF relevance and its stored rating. */
  datatype Document = Document(id: int, relevance: real, rating: int)

  function Abs(x: real): real
  {
    if x < 0.0 then -x else x
  }

  /** The comparator FindTopDocuments passes to std::sort: "lhs goes first". */
  predicate Before(lhs: Document, rhs: Document)
  {
    if Abs(lhs.relevance - rhs.relevance) < RelevanceTolerance then lhs.rating > rhs.rating
    else lhs.relevance > rhs.relevance
  }

  /** The comparator never puts two documents before each other. */
  lemma BeforeAsymmetric(a: Document, b: Document)
    ensures !(Before(a, b) && Before(b, a))
  {
    assert Abs(a.relevance - b.relevance) == Abs(b.relevance - a.relevance);
  }

  /**
   * The comparator is not a strict weak ordering: "neither goes first" is not
   * transitive, so std::sort is given no total order to sort by.
   */
  lemma BeforeIncomparabilityNotTransitive()
    ensures var a, b, c := Document(1, 0.0, 0), Document(2, 0.0000007, 0), Document(3, 0.0000014, 0);
      !Before(a, b) && !Before(b, a) && !Before(b, c) && !Before(c, b) && Before(c, a)
  {
  }

  /** No document is directly followed by one the comparator puts before it. */
  ghost predicate NoAdjacentInversion(s: seq<Document>)
  {
    forall i, j :: 0 <= i && j == i + 1 && j < |s| ==> !Before(s[j], s[i])
  }

  /** One pass of insertion sort: x moves back past every document it goes before. */
  function InsertBack(s: seq<Document>, x: Document): seq<Document>
    decreases |s|
  {
    if s == [] || !Before(x, s[|s| - 1]) then s + [x]
    else InsertBack(s[..|s| - 1], x) + [s[|s| - 1]]
  }

  /** Insertion adds exactly x and leaves either x or the old last document at the back. */
  lemma {:induction false} InsertBackCounts(s: seq<Document>, x: Document)
    ensures |InsertBack(s, x)| == |s| + 1
    ensures multiset(InsertBack(s, x)) == multiset(s) + multiset{x}
    ensures var r := InsertBack(s, x); r[|r| - 1] == x || (s != [] && r[|r| - 1] == s[|s| - 1])
    decreases |s|
  {
    if s != [] && Before(x, s[|s| - 1]) {
      var init, last := s[..|s| - 1], s[|s| - 1];
      assert s == init + [last];
      InsertBackCounts(init, x);
    }
  }

  /** Insertion creates no inversion between neighbours. */
  lemma {:induction false} InsertBackOrdered(s: seq<Document>, x: Document)
    requires NoAdjacentInversion(s)
    ensures NoAdjacentInversion(InsertBack(s, x))
    decreases |s|
  {
    if s != [] && Before(x, s[|s| - 1]) {
      var init, last := s[..|s| - 1], s[|s| - 1];
      assert s == init + [last];
      InsertBackOrdered(init, x);
      InsertBackCounts(init, x);
      BeforeAsymmetric(x, last);
    }
  }

  /** std::sort with the comparator, modelled as insertion sort. */
  function SortDocuments(s: seq<Document>): (r: seq<Document>)
    decreases |s|
  {
    if s == [] then [] else InsertBack(SortDocuments(s[..|s| - 1]), s[|s| - 1])
  }

  /** Sorting keeps every document: the result is a permutation. */
  lemma {:induction false} SortDocumentsCounts(s: seq<Document>)
    ensures multiset(SortDocuments(s)) == multiset(s)
    ensures |SortDocuments(s)| == |s|
    decreases |s|
  {
    if s != [] {
      var init, last := s[..|s| - 1], s[|s| - 1];
      SortDocumentsCounts(init);
      InsertBackCounts(SortDocuments(init), last);
      LastSplit(s);
    }
  }

  lemma LastSplit(s: seq<Document>)
    requires s != []
    ensures multiset(s) == multiset(s[..|s| - 1]) + multiset{s[|s| - 1]}
  {
    assert s == s[..|s| - 1] + [s[|s| - 1]];
  }

  /** Sorting orders neighbours by the comparator. */
  lemma {:induction false} SortDocumentsOrdered(s: seq<Document>)
    ensures NoAdjacentInversion(SortDocuments(s))
    decreases |s|
  {
    if s != [] {
      var init, last := s[..|s| - 1], s[|s| - 1];
      SortDocumentsOrdered(init);
      InsertBackOrdered(SortDocuments(init), last);
    }
  }

  /** Sorting keeps every document and orders neighbours by the comparator. */
  lemma SortDocumentsCorrect(s: seq<Document>)
    ensures multiset(SortDocuments(s)) == multiset(s)
    ensures |SortDocuments(s)| == |s|
    ensures NoAdjacentInversion(SortDocuments(s))
  {
    SortDocumentsCounts(s);
    SortDocumentsOrdered(s);
  }

  /** vector::resize(MaxResultDocumentCount) when there are more. */
  function Truncate(s: seq<Document>): (r: seq<Document>)
  {
    if |s| > MaxResultDocumentCount then s[..MaxResultDocumentCount] else s
  }

  /** What FindTopDocuments returns for the matched documents: sorted, then cut to the maximum. */
  function TopDocuments(matched: seq<Document>): seq<Document>
  {
    Truncate(SortDocuments(matched))
  }

  /**
   * At most MaxResultDocumentCount results, every one of them a matched
   * document, all matched documents when there are few enough, and
   * neighbours in comparator order.
   */
  lemma TopDocumentsCorrect(matched: seq<Document>)
    ensures var r := TopDocuments(matched);
      && |r| == (if |matched| < MaxResultDocumentCount then |matched| else MaxResultDocumentCount)
      && multiset(r) <= multiset(matched)
      && (|matched| <= MaxResultDocumentCount ==> multiset(r) == multiset(matched))
      && NoAdjacentInversion(r)
  {
    var sorted := SortDocuments(matched);
    SortDocumentsCorrect(matched);
    if |sorted| > MaxResultDocumentCount {
      assert sorted == sorted[..MaxResultDocumentCount] + sorted[MaxResultDocumentCount..];
      assert multiset(sorted) == multiset(sorted[..MaxResultDocumentCount]) + multiset(sorted[MaxResultDocumentCount..]);
    }
  }

  /** The end of FindTopDocuments: sort the matched documents in place, then resize to at most MaxResultDocumentCount. */
  method SortAndResize(matched: seq<Document>) returns (top: seq<Document>)
    ensures top == TopDocuments(matched)
  {
    var a := new Document[|matched|](i requires 0 <= i < |matched| => matched[i]);
    assert a[..] == matched;
    SortInPlace(a);
    top := a[..];
    if |top| > MaxResultDocumentCount {
      top := top[..MaxResultDocumentCount];
    }
  }

  /** std::sort on the vector: sorts the array in place by the comparator. */
  method SortInPlace(a: array<Document>)
    modifies a
    ensures a[..] == SortDocuments(old(a[..]))
  {
    ghost var input := a[..];
    var i := 0;
    while i < a.Length
      invariant 0 <= i <= a.Length
      invariant a[..i] == SortDocuments(input[..i])
      invariant a[i..] == input[i..]
    {
      assert input[..i + 1] == input[..i] + [input[i]];
      assert a[i] == input[i];
      InsertInPlace(a, i);
      i := i + 1;
    }
    assert input[..a.Length] == input;
  }

  /** One pass of SortInPlace: moves a[i] back into the sorted prefix a[..i]. */
  method InsertInPlace(a: array<Document>, i: nat)
    requires i < a.Length
    modifies a
    ensures a[..i + 1] == InsertBack(old(a[..i]), old(a[i]))
    ensures a[i + 1..] == old(a[i + 1..])
  {
    ghost var sorted := a[..i];
    ghost var rest := a[i + 1..];
    var x := a[i];
    var j := i;
    while j > 0 && Before(x, a[j - 1])
      invariant 0 <= j <= i
      invariant a[..j] == sorted[..j]
      invariant a[j + 1..i + 1] == sorted[j..]
      invariant a[i + 1..] == rest
      invariant InsertBack(sorted, x) == InsertBack(sorted[..j], x) + sorted[j..]
    {
      ShiftStep(sorted, x, j);
      ghost var before := a[..];
      a[j] := a[j - 1];
      ShiftFrame(before, a[..], sorted, rest, i, j);
      j := j - 1;
    }
    ghost var shifted := a[..];
    a[j] := x;
    PlaceStep(shifted, a[..], sorted, x, i, j);
  }

  lemma ShiftStep(sorted: seq<Document>, x: Document, j: nat)
    requires 0 < j <= |sorted|
    requires Before(x, sorted[j - 1])
    ensures InsertBack(sorted[..j], x) + sorted[j..] == InsertBack(sorted[..j - 1], x) + sorted[j - 1..]
  {
    assert sorted[..j][..j - 1] == sorted[..j - 1];
    assert sorted[j - 1..] == [sorted[j - 1]] + sorted[j..];
  }

  lemma ShiftFrame(before: seq<Document>, after: seq<Document>, sorted: seq<Document>, rest: seq<Document>, i: nat, j: nat)
    requires 0 < j <= i == |sorted| < |before| == |after|
    requires before[..j] == sorted[..j] && before[j + 1..i + 1] == sorted[j..] && before[i + 1..] == rest
    requires after == before[j := before[j - 1]]
    ensures after[..j - 1] == sorted[..j - 1]
    ensures after[j..i + 1] == sorted[j - 1..]
    ensures after[i + 1..] == rest
  {
    assert after[j..i + 1] == [before[j - 1]] + before[j + 1..i + 1];
    assert sorted[j - 1..] == [sorted[j - 1]] + sorted[j..];
  }

  lemma PlaceStep(before: seq<Document>, after: seq<Document>, sorted: seq<Document>, x: Document, i: nat, j: nat)
    requires j <= i == |sorted| < |before| == |after|
    requires before[..j] == sorted[..j] && before[j + 1..i + 1] == sorted[j..]
    requires after == before[j := x]
    requires j > 0 ==> !Before(x, sorted[j - 1])
    ensures after[..i + 1] == InsertBack(sorted[..j], x) + sorted[j..]
    ensures after[i + 1..] == before[i + 1..]
  {
    assert after[..i + 1] == after[..j] + [x] + after[j + 1..i + 1];
  }
}
