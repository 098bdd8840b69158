// What AddDocument stores: the average rating of a document and, for each
// kept word, a posting holding the word's term frequency in that document.
module Indexing {
  import opened SearchTypes
  import opened Words

  /** C++ division of int by a positive int: the quotient is truncated toward zero. */
  function TruncatingDiv(a: int, b: int): (q: int)
    requires b > 0
    ensures 0 <= a ==> 0 <= q * b <= a < q * b + b
    ensures a < 0 ==> q * b - b < a <= q * b <= 0
  {
    var p := (if a >= 0 then a else -a) / b;
    DivisionBounds(if a >= 0 then a else -a, b);
    if a >= 0 then p
    else
      assert (-p) * b == -(p * b);
      -p
  }

  lemma DivisionBounds(a: nat, b: int)
    requires b > 0
    ensures 0 <= (a / b) * b <= a < (a / b) * b + b
  {
    var p, r := a / b, a % b;
    assert a == p * b + r && 0 <= r < b;
    MulNonNegative(p, b);
  }

  lemma MulNonNegative(x: int, y: int)
    requires x >= 0 && y >= 0
    ensures x * y >= 0
  {
  }

  /** A positive factor can be cancelled from both sides of an inequality. */
  lemma CancelFactor(x: int, y: int, n: int)
    requires n > 0 && x * n <= y * n
    ensures x <= y
  {
    if x > y {
      assert (x - y) * n == x * n - y * n;
      MulNonNegative(x - y - 1, n);
    }
  }

  function Sum(s: seq<int>): int
    decreases |s|
  {
    if s == [] then 0 else Sum(s[..|s| - 1]) + s[|s| - 1]
  }

  /** ComputeAverageRating: 0 for no ratings, else the sum divided by the count, truncated toward zero. */
  function AverageRating(ratings: seq<int>): int
  {
    if ratings == [] then 0 else TruncatingDiv(Sum(ratings), |ratings|)
  }

  lemma {:induction false} SumBounds(s: seq<int>, lo: int, hi: int)
    requires forall i :: 0 <= i < |s| ==> lo <= s[i] <= hi
    ensures |s| * lo <= Sum(s) <= |s| * hi
    decreases |s|
  {
    if s != [] {
      var init, n := s[..|s| - 1], |s| - 1;
      assert forall i :: 0 <= i < n ==> init[i] == s[i];
      SumBounds(init, lo, hi);
      assert Sum(s) == Sum(init) + s[n];
      assert |s| * lo == n * lo + lo && |s| * hi == n * hi + hi;
    }
  }

  /** The average rating lies between the smallest and the largest rating. */
  lemma AverageRatingBounds(ratings: seq<int>, lo: int, hi: int)
    requires ratings != []
    requires forall i :: 0 <= i < |ratings| ==> lo <= ratings[i] <= hi
    ensures lo <= AverageRating(ratings) <= hi
  {
    var n := |ratings|;
    var sum := Sum(ratings);
    SumBounds(ratings, lo, hi);
    assert n * lo == lo * n && n * hi == hi * n;
    var q := TruncatingDiv(sum, n);
    assert q == AverageRating(ratings);
    if sum >= 0 {
      assert q * n <= hi * n;
      CancelFactor(q, hi, n);
      assert (q + 1) * n == q * n + n;
      assert lo * n < (q + 1) * n;
      CancelLess(lo, q + 1, n);
    } else {
      assert lo * n <= q * n;
      CancelFactor(lo, q, n);
      assert (q - 1) * n == q * n - n;
      assert (q - 1) * n < hi * n;
      CancelLess(q - 1, hi, n);
    }
  }

  lemma CancelLess(x: int, y: int, n: int)
    requires n > 0 && x * n < y * n
    ensures x < y
  {
    if x >= y {
      assert (x - y) * n == x * n - y * n;
      MulNonNegative(x - y, n);
    }
  }

  /** Truncation, not flooring: a negative average rounds up. */
  lemma AverageRatingTruncatesTowardZero()
    ensures AverageRating([-3, -4]) == -3
    ensures AverageRating([3, 4]) == 3
    ensures AverageRating([]) == 0
  {
    assert Sum([-3, -4]) == -7 by { assert [-3, -4][..1] == [-3]; }
    assert Sum([3, 4]) == 7 by { assert [3, 4][..1] == [3]; }
  }

  /** The share of the kept words that are w. */
  function TermFrequency(words: seq<string>, w: string): real
    requires |words| > 0
  {
    multiset(words)[w] as real / |words| as real
  }

  function PostingsOrEmpty(index: Index, w: string): map<int, real>
  {
    if w in index then index[w] else map[]
  }

  /** The index once AddDocument has added id with these kept words. */
  function AddPostings(index: Index, id: int, words: seq<string>): Index
  {
    map w | w in index.Keys + (set u | u in words) ::
      if w in words then PostingsOrEmpty(index, w)[id := TermFrequency(words, w)] else index[w]
  }

  /** The postings of one document: each word it holds, with its term frequency. */
  function PostingsOf(index: Index, id: int): map<string, real>
  {
    map w | w in index && id in index[w] :: index[w][id]
  }

  /**
   * Adding a document whose id has no posting yet gives it exactly one
   * posting per distinct kept word, worth that word's term frequency, and
   * leaves every other document's postings as they were.
   */
  lemma AddPostingsEffect(index: Index, id: int, words: seq<string>)
    requires forall w :: w in index ==> id !in index[w]
    ensures |words| > 0 ==> PostingsOf(AddPostings(index, id, words), id) == TermFrequencies(words)
    ensures words == [] ==> PostingsOf(AddPostings(index, id, words), id) == map[]
    ensures forall d :: d != id ==> PostingsOf(AddPostings(index, id, words), d) == PostingsOf(index, d)
  {
    var after := AddPostings(index, id, words);
    forall d | d != id
      ensures PostingsOf(after, d) == PostingsOf(index, d)
    {
      forall w
        ensures w in PostingsOf(after, d) <==> w in PostingsOf(index, d)
        ensures w in PostingsOf(after, d) ==> PostingsOf(after, d)[w] == PostingsOf(index, d)[w]
      {
        if w in words {
          assert after[w] == PostingsOrEmpty(index, w)[id := TermFrequency(words, w)];
        }
      }
    }
  }

  /** Sums f over the distinct words of the sequence, each counted once (at its last occurrence). */
  function SumOverDistinct(words: seq<string>, f: map<string, real>): real
    requires forall w :: w in words ==> w in f
    decreases |words|
  {
    if words == [] then 0.0
    else (if words[0] in words[1..] then 0.0 else f[words[0]]) + SumOverDistinct(words[1..], f)
  }

  /** Sums the occurrences in s of each distinct word of t. */
  function CountOverDistinct(t: seq<string>, s: seq<string>): int
    decreases |t|
  {
    if t == [] then 0
    else (if t[0] in t[1..] then 0 else multiset(s)[t[0]]) + CountOverDistinct(t[1..], s)
  }

  lemma {:induction false} CountOverDistinctAppend(t: seq<string>, a: seq<string>, b: seq<string>)
    ensures CountOverDistinct(t, a + b) == CountOverDistinct(t, a) + CountOverDistinct(t, b)
    decreases |t|
  {
    if t != [] {
      assert multiset(a + b) == multiset(a) + multiset(b);
      CountOverDistinctAppend(t[1..], a, b);
    }
  }

  lemma {:induction false} CountOverDistinctSingle(t: seq<string>, x: string)
    ensures CountOverDistinct(t, [x]) == if x in t then 1 else 0
    decreases |t|
  {
    if t != [] {
      assert t == [t[0]] + t[1..];
      CountOverDistinctSingle(t[1..], x);
    }
  }

  /** Every word of s is counted once per occurrence: the counts of the distinct words add up to |s|. */
  lemma {:induction false} CountOverDistinctSelf(s: seq<string>)
    ensures CountOverDistinct(s, s) == |s|
    decreases |s|
  {
    if s != [] {
      var x, u := s[0], s[1..];
      assert s == [x] + u;
      CountOverDistinctAppend(u, [x], u);
      CountOverDistinctSingle(u, x);
      CountOverDistinctSelf(u);
      assert multiset(s) == multiset{x} + multiset(u);
    }
  }

  /** The term frequency of every kept word. */
  function TermFrequencies(words: seq<string>): map<string, real>
    requires |words| > 0
  {
    map w | w in words :: TermFrequency(words, w)
  }

  /** x * n, kept behind a function so that the solver multiplies only where a lemma says so. */
  function Scale(x: real, n: real): real
  {
    x * n
  }

  lemma ScaleSum(h: real, rest: real, n: real)
    ensures Scale(h + rest, n) == Scale(h, n) + Scale(rest, n)
  {
  }

  /** Scaling a sum of shares by n gives the sum of the counts the shares stand for. */
  lemma {:induction false} SumOfShares(t: seq<string>, s: seq<string>, share: map<string, real>, n: real)
    requires forall w :: w in t ==> w in share && Scale(share[w], n) == multiset(s)[w] as real
    ensures Scale(SumOverDistinct(t, share), n) == CountOverDistinct(t, s) as real
    decreases |t|
  {
    if t != [] {
      assert forall w :: w in t[1..] ==> w in t;
      SumOfShares(t[1..], s, share, n);
      ScaleSum(if t[0] in t[1..] then 0.0 else share[t[0]], SumOverDistinct(t[1..], share), n);
    }
  }

  lemma ScaleDiv(c: real, n: real)
    requires n != 0.0
    ensures Scale(c / n, n) == c
  {
  }

  lemma ScaleCancel(x: real, n: real)
    requires n != 0.0 && Scale(x, n) == n
    ensures x == 1.0
  {
    assert (x - 1.0) * n == 0.0;
  }

  /**
   * The term frequencies of a document's distinct kept words add up to 1:
   * each word's share times the number of kept words is its count, and the
   * counts add up to that number.
   */
  lemma TermFrequenciesSumToOne(words: seq<string>)
    requires |words| > 0
    ensures SumOverDistinct(words, TermFrequencies(words)) == 1.0
  {
    forall w | w in words
      ensures Scale(TermFrequencies(words)[w], |words| as real) == multiset(words)[w] as real
    {
      ScaleDiv(multiset(words)[w] as real, |words| as real);
    }
    SumOfShares(words, words, TermFrequencies(words), |words| as real);
    CountOverDistinctSelf(words);
    ScaleCancel(SumOverDistinct(words, TermFrequencies(words)), |words| as real);
  }

  /** One step of AddDocument's loop: word_to_document_freqs_[w][id] += share, creating missing entries. */
  function AddShare(index: Index, id: int, w: string, share: real): Index
  {
    var postings := PostingsOrEmpty(index, w);
    index[w := postings[id := (if id in postings then postings[id] else 0.0) + share]]
  }

  /** AddDocument's loop run over the kept words, in order. */
  function AddShares(index: Index, id: int, words: seq<string>, share: real): Index
    decreases |words|
  {
    if words == [] then index
    else AddShare(AddShares(index, id, words[..|words| - 1], share), id, words[|words| - 1], share)
  }

  lemma ScaleSucc(c: real, share: real)
    ensures Scale(c, share) + share == Scale(c + 1.0, share)
  {
  }

  lemma ScaleZero(share: real)
    ensures Scale(0.0, share) == 0.0
  {
  }

  /** The loop adds a postings entry for each word and removes none. */
  lemma {:induction false} AddSharesKeys(index: Index, id: int, words: seq<string>, share: real)
    ensures forall w :: w in AddShares(index, id, words, share) <==> w in index || w in words
    decreases |words|
  {
    if words != [] {
      var init, v := words[..|words| - 1], words[|words| - 1];
      assert words == init + [v];
      AddSharesKeys(index, id, init, share);
    }
  }

  /** The loop leaves the postings of every other word as they were. */
  lemma {:induction false} AddSharesUntouched(index: Index, id: int, words: seq<string>, share: real)
    ensures forall w :: w in index && w !in words ==>
      w in AddShares(index, id, words, share) && AddShares(index, id, words, share)[w] == index[w]
    decreases |words|
  {
    AddSharesKeys(index, id, words, share);
    if words != [] {
      var init, v := words[..|words| - 1], words[|words| - 1];
      assert words == init + [v];
      AddSharesUntouched(index, id, init, share);
      AddSharesKeys(index, id, init, share);
    }
  }

  lemma CountLast(words: seq<string>)
    requires words != []
    ensures var init, v := words[..|words| - 1], words[|words| - 1];
      && multiset(words) == multiset(init) + multiset{v}
      && forall w :: w in words <==> w in init || w == v
  {
    assert words == words[..|words| - 1] + [words[|words| - 1]];
  }

  /** Each word's posting for id is the share times the number of times the word occurs. */
  lemma {:induction false} AddSharesValues(index: Index, id: int, words: seq<string>, share: real)
    requires forall w :: w in index ==> id !in index[w]
    ensures forall w :: w in words ==>
      w in AddShares(index, id, words, share) &&
      AddShares(index, id, words, share)[w] == PostingsOrEmpty(index, w)[id := Scale(multiset(words)[w] as real, share)]
    decreases |words|
  {
    AddSharesKeys(index, id, words, share);
    if words != [] {
      var init, v := words[..|words| - 1], words[|words| - 1];
      CountLast(words);
      AddSharesValues(index, id, init, share);
      AddSharesKeys(index, id, init, share);
      AddSharesUntouched(index, id, init, share);
      var before := AddShares(index, id, init, share);
      var after := AddShares(index, id, words, share);
      assert after == AddShare(before, id, v, share);
      forall w | w in words
        ensures after[w] == PostingsOrEmpty(index, w)[id := Scale(multiset(words)[w] as real, share)]
      {
        if w == v {
          ShareStep(index, before, id, v, share, multiset(init)[v]);
        } else {
          assert w in init;
        }
      }
    }
  }

  /** The whole loop: which words have postings, and what each word's posting for id is. */
  lemma AddSharesEffect(index: Index, id: int, words: seq<string>, share: real)
    requires forall w :: w in index ==> id !in index[w]
    ensures forall w :: w in AddShares(index, id, words, share) <==> w in index || w in words
    ensures forall w :: w in words ==>
      AddShares(index, id, words, share)[w] == PostingsOrEmpty(index, w)[id := Scale(multiset(words)[w] as real, share)]
    ensures forall w :: w in index && w !in words ==> AddShares(index, id, words, share)[w] == index[w]
  {
    AddSharesKeys(index, id, words, share);
    AddSharesValues(index, id, words, share);
    AddSharesUntouched(index, id, words, share);
  }


  /** The step for the word the loop is at: its count under the new id goes up by one share. */
  lemma ShareStep(index: Index, before: Index, id: int, v: string, share: real, c: nat)
    requires forall w :: w in index ==> id !in index[w]
    requires c > 0 ==> v in before && before[v] == PostingsOrEmpty(index, v)[id := Scale(c as real, share)]
    requires c == 0 ==> PostingsOrEmpty(before, v) == PostingsOrEmpty(index, v)
    ensures AddShare(before, id, v, share)[v] == PostingsOrEmpty(index, v)[id := Scale((c + 1) as real, share)]
  {
    ScaleSucc(c as real, share);
    if c == 0 {
      ScaleZero(share);
    }
  }

  lemma ScaleInverse(c: real, n: real)
    requires n != 0.0
    ensures Scale(c, 1.0 / n) == c / n
  {
  }

  /**
   * The loop computes the postings AddDocument promises: with n kept words
   * and share 1/n, each word ends with its term frequency; with no kept
   * words the index is unchanged.
   */
  lemma AddSharesIsAddPostings(index: Index, id: int, words: seq<string>)
    requires forall w :: w in index ==> id !in index[w]
    ensures |words| > 0 ==> AddShares(index, id, words, 1.0 / |words| as real) == AddPostings(index, id, words)
    ensures words == [] ==> AddPostings(index, id, words) == index
  {
    if |words| > 0 {
      var share := 1.0 / |words| as real;
      AddSharesEffect(index, id, words, share);
      forall w | w in words
        ensures Scale(multiset(words)[w] as real, share) == TermFrequency(words, w)
      {
        ScaleInverse(multiset(words)[w] as real, |words| as real);
      }
    }
  }

  /**
   * The shape of the index between operations: every indexed word is a
   * valid non-stop word with at least one posting, and every posting names
   * a stored document.
   */
  ghost predicate WellFormedIndex(index: Index, stopWords: set<string>, ids: set<int>)
  {
    forall w :: w in index ==>
      && IsValidWord(w) && w !in stopWords
      && |index[w]| > 0
      && index[w].Keys <= ids
  }

  /** Adding a fresh document whose kept words are valid non-stop words keeps the index well formed. */
  lemma AddPostingsWellFormed(index: Index, stopWords: set<string>, ids: set<int>, id: int, words: seq<string>)
    requires WellFormedIndex(index, stopWords, ids)
    requires forall w :: w in words ==> IsValidWord(w) && w !in stopWords
    ensures WellFormedIndex(AddPostings(index, id, words), stopWords, ids + {id})
  {
    var after := AddPostings(index, id, words);
    forall w | w in after
      ensures |after[w]| > 0 && after[w].Keys <= ids + {id}
    {
      if w in words {
        assert id in after[w];
      }
    }
  }

  /** The share AddDocument adds per occurrence: one over the number of kept words. */
  function InverseWordCount(words: seq<string>): real
  {
    if |words| == 0 then 0.0 else 1.0 / |words| as real
  }

  /**
   * AddDocument's loop over a fresh id with valid non-stop words ends in the
   * promised postings and keeps the index well formed.
   */
  lemma AddWordSharesCorrect(index: Index, stopWords: set<string>, ids: set<int>, id: int, words: seq<string>)
    requires WellFormedIndex(index, stopWords, ids) && id !in ids
    requires forall w :: w in words ==> IsValidWord(w) && w !in stopWords
    ensures AddShares(index, id, words, InverseWordCount(words)) == AddPostings(index, id, words)
    ensures WellFormedIndex(AddPostings(index, id, words), stopWords, ids + {id})
  {
    assert forall w :: w in index ==> id !in index[w];
    AddSharesIsAddPostings(index, id, words);
    AddPostingsWellFormed(index, stopWords, ids, id, words);
  }
}
