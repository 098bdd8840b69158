// What a query finds: the TF-IDF relevance FindAllDocuments accumulates,
// the documents it reports in ascending id order, and the words
// MatchDocument explains a match with.
module Scoring {
  import opened SearchTypes
  import opened OrderedStrings
  import opened Ranking
  import opened Indexing

  /** Every word of the index has at least one posting: a word enters the index only with a document. */
  ghost predicate NonEmptyPostings(index: Index)
  {
    forall w :: w in index ==> |index[w]| > 0
  }

  /** The document has a posting under w. */
  predicate Hit(index: Index, w: string, id: int)
  {
    w in index && id in index[w]
  }

  /** Some word of the sequence has a posting for the document. */
  predicate Mentions(index: Index, words: seq<string>, id: int)
  {
    exists i :: 0 <= i < |words| && Hit(index, words[i], id)
  }

  /** The argument ComputeWordInverseDocumentFreq hands to log: documents per document holding the word. */
  function IdfArgument(documentCount: nat, postings: map<int, real>): real
    requires |postings| > 0
  {
    documentCount as real / |postings| as real
  }

  /** ComputeWordInverseDocumentFreq, with the logarithm as a parameter. */
  function InverseDocumentFreq(index: Index, documentCount: nat, w: string, ln: real -> real): real
    requires w in index && |index[w]| > 0
  {
    ln(IdfArgument(documentCount, index[w]))
  }

  lemma HasElement(s: set<int>)
    ensures |s| > 0 ==> exists x :: x in s
  {
    if |s| > 0 && forall x :: x !in s {
      assert false;
    }
  }

  lemma {:induction false} SubsetCardinality(a: set<int>, b: set<int>)
    requires a <= b
    ensures |a| <= |b|
    ensures |a| == |b| ==> a == b
    decreases |a|
  {
    if |a| > 0 {
      HasElement(a);
      var x :| x in a;
      SubsetCardinality(a - {x}, b - {x});
      assert a == (a - {x}) + {x} && b == (b - {x}) + {x};
    } else if |b| == 0 {
      assert b == {};
    }
  }

  lemma RatioAtLeastOne(c: real, n: real)
    requires c >= n > 0.0
    ensures c / n >= 1.0
    ensures c / n == 1.0 <==> c == n
  {
  }

  /**
   * When every document holding the word is a stored document, log gets an
   * argument of at least 1; the argument is exactly 1 when every stored
   * document holds the word.
   */
  lemma IdfArgumentAtLeastOne(documents: map<int, DocumentData>, postings: map<int, real>)
    requires postings.Keys <= documents.Keys && |postings| > 0
    ensures IdfArgument(|documents|, postings) >= 1.0
    ensures IdfArgument(|documents|, postings) == 1.0 <==> postings.Keys == documents.Keys
  {
    SubsetCardinality(postings.Keys, documents.Keys);
    RatioAtLeastOne(|documents| as real, |postings| as real);
  }

  /** One plus word's share of a document's relevance: term frequency times inverse document frequency. */
  function WordScore(index: Index, documentCount: nat, w: string, id: int, ln: real -> real): real
    requires NonEmptyPostings(index)
  {
    if Hit(index, w, id) then Scale(index[w][id], InverseDocumentFreq(index, documentCount, w, ln)) else 0.0
  }

  /** The relevance FindAllDocuments accumulates for a document over the plus words, in their order. */
  function PlusScore(index: Index, documentCount: nat, plusWords: seq<string>, id: int, ln: real -> real): real
    requires NonEmptyPostings(index)
    decreases |plusWords|
  {
    if plusWords == [] then 0.0
    else PlusScore(index, documentCount, plusWords[..|plusWords| - 1], id, ln)
         + WordScore(index, documentCount, plusWords[|plusWords| - 1], id, ln)
  }

  /**
   * The map FindAllDocuments builds: every stored document the predicate
   * accepts that holds some plus word and no minus word, with its relevance.
   */
  function Relevances(index: Index, documents: map<int, DocumentData>, q: Query,
                      pred: DocumentPredicate, ln: real -> real): map<int, real>
    requires NonEmptyPostings(index)
  {
    map id | id in documents && pred(id, documents[id].status, documents[id].rating)
             && Mentions(index, q.plusWords, id) && !Mentions(index, q.minusWords, id)
      :: PlusScore(index, |documents|, q.plusWords, id, ln)
  }

  lemma {:induction false} MinExists(s: set<int>)
    requires s != {}
    ensures exists m :: m in s && forall k :: k in s ==> m <= k
    decreases s
  {
    HasElement(s);
    var x :| x in s;
    var below := set k | k in s && k < x;
    if below == {} {
      forall k | k in s
        ensures x <= k
      {
        assert k < x ==> k in below;
      }
    } else {
      assert x !in below;
      MinExists(below);
      var m :| m in below && forall k :: k in below ==> m <= k;
      forall k | k in s
        ensures m <= k
      {
        assert k < x ==> k in below;
      }
    }
  }

  ghost function MinOf(s: set<int>): (m: int)
    requires s != {}
    ensures m in s && forall k :: k in s ==> m <= k
  {
    MinExists(s);
    var m :| m in s && forall k :: k in s ==> m <= k; m
  }

  /** The ids of a set in increasing order: the iteration order of a std::map<int, ...>. */
  ghost function AscendingIds(s: set<int>): seq<int>
    decreases |s|
  {
    if s == {} then [] else [MinOf(s)] + AscendingIds(s - {MinOf(s)})
  }

  /** Each id of the set occurs once, in increasing order. */
  lemma {:induction false} AscendingIdsCorrect(s: set<int>)
    ensures |AscendingIds(s)| == |s|
    ensures forall k :: k in AscendingIds(s) <==> k in s
    ensures forall i, j :: 0 <= i < j < |AscendingIds(s)| ==> AscendingIds(s)[i] < AscendingIds(s)[j]
    decreases |s|
  {
    if s != {} {
      var m := MinOf(s);
      AscendingIdsCorrect(s - {m});
      var r := AscendingIds(s);
      assert r == [m] + AscendingIds(s - {m});
      forall i, j | 0 <= i < j < |r|
        ensures r[i] < r[j]
      {
        if i == 0 {
          assert r[j] in AscendingIds(s - {m});
        } else {
          assert r[i] == AscendingIds(s - {m})[i - 1] && r[j] == AscendingIds(s - {m})[j - 1];
        }
      }
    }
  }

  /** The Document records for the ids, in order: relevance from the map, rating from the store. */
  function ToDocuments(ids: seq<int>, relevance: map<int, real>, documents: map<int, DocumentData>): (r: seq<Document>)
    requires forall i :: 0 <= i < |ids| ==> ids[i] in relevance && ids[i] in documents
    ensures |r| == |ids|
    ensures forall i :: 0 <= i < |ids| ==> r[i] == Document(ids[i], relevance[ids[i]], documents[ids[i]].rating)
    decreases |ids|
  {
    if ids == [] then []
    else ToDocuments(ids[..|ids| - 1], relevance, documents)
         + [Document(ids[|ids| - 1], relevance[ids[|ids| - 1]], documents[ids[|ids| - 1]].rating)]
  }

  /** Listing one id more appends its Document. */
  lemma ToDocumentsSnoc(ids: seq<int>, id: int, relevance: map<int, real>, documents: map<int, DocumentData>)
    requires forall i :: 0 <= i < |ids| ==> ids[i] in relevance && ids[i] in documents
    requires id in relevance && id in documents
    ensures forall i :: 0 <= i < |ids + [id]| ==> (ids + [id])[i] in relevance && (ids + [id])[i] in documents
    ensures ToDocuments(ids + [id], relevance, documents)
            == ToDocuments(ids, relevance, documents) + [Document(id, relevance[id], documents[id].rating)]
  {
    assert (ids + [id])[..|ids|] == ids;
  }

  /** What FindAllDocuments returns: one Document per entry of the relevance map, in ascending id order. */
  ghost function MatchedDocuments(relevance: map<int, real>, documents: map<int, DocumentData>): seq<Document>
    requires relevance.Keys <= documents.Keys
  {
    AscendingIdsCorrect(relevance.Keys);
    ToDocuments(AscendingIds(relevance.Keys), relevance, documents)
  }

  /** The matched documents are exactly the entries of the map, by increasing id. */
  lemma MatchedDocumentsCorrect(relevance: map<int, real>, documents: map<int, DocumentData>)
    requires relevance.Keys <= documents.Keys
    ensures var r := MatchedDocuments(relevance, documents);
      && |r| == |relevance|
      && (forall d :: d in r <==> d.id in relevance && d.relevance == relevance[d.id] && d.rating == documents[d.id].rating)
      && (forall i, j :: 0 <= i < j < |r| ==> r[i].id < r[j].id)
  {
    AscendingIdsCorrect(relevance.Keys);
    var ids := AscendingIds(relevance.Keys);
    var r := MatchedDocuments(relevance, documents);
    assert |relevance.Keys| == |relevance|;
    forall d: Document | d.id in relevance && d.relevance == relevance[d.id] && d.rating == documents[d.id].rating
      ensures d in r
    {
      var i :| 0 <= i < |ids| && ids[i] == d.id;
      assert r[i] == d;
    }
  }

  /** The plus words the document holds, in query order (MatchDocument's first loop). */
  function HitsOf(index: Index, words: seq<string>, id: int): seq<string>
    decreases |words|
  {
    if words == [] then []
    else
      var w := words[|words| - 1];
      HitsOf(index, words[..|words| - 1], id) + (if Hit(index, w, id) then [w] else [])
  }

  /** MatchDocument's word list: nothing when a minus word holds the document, else the plus words it holds. */
  function MatchedWords(index: Index, q: Query, id: int): seq<string>
  {
    if Mentions(index, q.minusWords, id) then [] else HitsOf(index, q.plusWords, id)
  }

  /** A word is a hit exactly when it is one of the words and holds the document. */
  lemma {:induction false} HitsOfMembers(index: Index, words: seq<string>, id: int)
    ensures forall w :: w in HitsOf(index, words, id) <==> w in words && Hit(index, w, id)
    decreases |words|
  {
    if words != [] {
      var init, w := words[..|words| - 1], words[|words| - 1];
      assert words == init + [w];
      HitsOfMembers(index, init, id);
    }
  }

  /** The hits keep the order of the words. */
  lemma {:induction false} HitsOfSorted(index: Index, words: seq<string>, id: int)
    requires StrictlySorted(words)
    ensures StrictlySorted(HitsOf(index, words, id))
    decreases |words|
  {
    if words != [] {
      var init, w := words[..|words| - 1], words[|words| - 1];
      assert StrictlySorted(init) by {
        forall i, j | 0 <= i < j < |init|
          ensures Less(init[i], init[j])
        {
          assert init[i] == words[i] && init[j] == words[j];
        }
      }
      HitsOfSorted(index, init, id);
      HitsOfMembers(index, init, id);
      var h := HitsOf(index, init, id);
      forall u | u in h
        ensures Less(u, w)
      {
        var i :| 0 <= i < |init| && init[i] == u;
        assert words[i] == u;
      }
      SortedAppend(h, w);
    }
  }

  /** There are no hits exactly when no word mentions the document. */
  lemma {:induction false} HitsOfEmpty(index: Index, words: seq<string>, id: int)
    ensures HitsOf(index, words, id) == [] <==> !Mentions(index, words, id)
    decreases |words|
  {
    if words != [] {
      var init, w := words[..|words| - 1], words[|words| - 1];
      HitsOfEmpty(index, init, id);
      assert forall i :: 0 <= i < |init| ==> init[i] == words[i];
    }
  }

  /**
   * The hits are the words that hold the document, kept in order; there
   * are none exactly when no word mentions the document.
   */
  lemma HitsOfCorrect(index: Index, words: seq<string>, id: int)
    ensures forall w :: w in HitsOf(index, words, id) <==> w in words && Hit(index, w, id)
    ensures StrictlySorted(words) ==> StrictlySorted(HitsOf(index, words, id))
    ensures HitsOf(index, words, id) == [] <==> !Mentions(index, words, id)
  {
    HitsOfMembers(index, words, id);
    if StrictlySorted(words) {
      HitsOfSorted(index, words, id);
    }
    HitsOfEmpty(index, words, id);
  }


  /** Appending a word above every element keeps a sequence strictly sorted. */
  lemma SortedAppend(s: seq<string>, x: string)
    requires StrictlySorted(s)
    requires forall u :: u in s ==> Less(u, x)
    ensures StrictlySorted(s + [x])
  {
    var r := s + [x];
    forall i, j | 0 <= i < j < |r|
      ensures Less(r[i], r[j])
    {
      assert r[i] == s[i];
      if j < |s| {
        assert r[j] == s[j];
      } else {
        assert s[i] in s;
      }
    }
  }

  /**
   * MatchDocument lists a word exactly when no minus word holds the
   * document, the word is a plus word and the document holds it; the list
   * is in ascending order.
   */
  lemma MatchedWordsCorrect(index: Index, q: Query, id: int)
    requires StrictlySorted(q.plusWords)
    ensures StrictlySorted(MatchedWords(index, q, id))
    ensures forall w :: w in MatchedWords(index, q, id) <==>
      !Mentions(index, q.minusWords, id) && w in q.plusWords && Hit(index, w, id)
  {
    HitsOfCorrect(index, q.plusWords, id);
  }

  /**
   * FindTopDocuments and MatchDocument agree: a document is scored exactly
   * when it is stored, passes the predicate and MatchDocument lists some
   * word for it.
   */
  lemma RelevantIffMatched(index: Index, documents: map<int, DocumentData>, q: Query,
                           pred: DocumentPredicate, ln: real -> real, id: int)
    requires NonEmptyPostings(index)
    ensures id in Relevances(index, documents, q, pred, ln) <==>
      id in documents && pred(id, documents[id].status, documents[id].rating) && MatchedWords(index, q, id) != []
  {
    HitsOfCorrect(index, q.plusWords, id);
  }

  /**
   * Every document FindTopDocuments returns is stored, passes the predicate,
   * holds a plus word and no minus word, and carries its relevance and its
   * stored rating; there are at most MaxResultDocumentCount of them, and
   * all matches are returned when there are no more than that.
   */
  lemma TopDocumentsQualify(index: Index, documents: map<int, DocumentData>, q: Query,
                            pred: DocumentPredicate, ln: real -> real)
    requires NonEmptyPostings(index)
    ensures var rel := Relevances(index, documents, q, pred, ln);
      var r := TopDocuments(MatchedDocuments(rel, documents));
      && |r| <= MaxResultDocumentCount
      && (|rel| <= MaxResultDocumentCount ==> |r| == |rel|)
      && forall d :: d in r ==>
           && d.id in documents
           && pred(d.id, documents[d.id].status, documents[d.id].rating)
           && Mentions(index, q.plusWords, d.id)
           && !Mentions(index, q.minusWords, d.id)
           && d.relevance == PlusScore(index, |documents|, q.plusWords, d.id, ln)
           && d.rating == documents[d.id].rating
  {
    var rel := Relevances(index, documents, q, pred, ln);
    var matched := MatchedDocuments(rel, documents);
    MatchedDocumentsCorrect(rel, documents);
    TopDocumentsCorrect(matched);
    var r := TopDocuments(matched);
    forall d | d in r
      ensures d in matched
    {
      assert multiset(r)[d] > 0;
    }
  }

  /** Mentioning a word of p + [w] is mentioning a word of p or w itself. */
  lemma MentionsAppend(index: Index, p: seq<string>, w: string, id: int)
    ensures Mentions(index, p + [w], id) <==> Mentions(index, p, id) || Hit(index, w, id)
  {
    var q := p + [w];
    if Mentions(index, p, id) {
      var i :| 0 <= i < |p| && Hit(index, p[i], id);
      assert q[i] == p[i];
    }
    if Hit(index, w, id) {
      assert q[|p|] == w;
    }
    if Mentions(index, q, id) {
      var i :| 0 <= i < |q| && Hit(index, q[i], id);
      if i < |p| {
        assert p[i] == q[i];
      }
    }
  }

  /** A document no plus word holds scores nothing. */
  lemma {:induction false} PlusScoreUnmentioned(index: Index, documentCount: nat, plusWords: seq<string>, id: int, ln: real -> real)
    requires NonEmptyPostings(index)
    requires !Mentions(index, plusWords, id)
    ensures PlusScore(index, documentCount, plusWords, id, ln) == 0.0
    decreases |plusWords|
  {
    if plusWords != [] {
      var init, w := plusWords[..|plusWords| - 1], plusWords[|plusWords| - 1];
      assert plusWords == init + [w];
      MentionsAppend(index, init, w, id);
      PlusScoreUnmentioned(index, documentCount, init, id, ln);
    }
  }

  /** The map after FindAllDocuments' loop over the plus words p: accepted documents holding one of them. */
  function PlusRelevances(index: Index, documents: map<int, DocumentData>, plusWords: seq<string>,
                          pred: DocumentPredicate, ln: real -> real): map<int, real>
    requires NonEmptyPostings(index)
  {
    map id | id in documents && pred(id, documents[id].status, documents[id].rating) && Mentions(index, plusWords, id)
      :: PlusScore(index, |documents|, plusWords, id, ln)
  }

  /** The entries of the map that no word of the sequence holds: what the erase loop leaves. */
  function Unmentioned(relevance: map<int, real>, index: Index, words: seq<string>): map<int, real>
  {
    map id | id in relevance && !Mentions(index, words, id) :: relevance[id]
  }

  /**
   * One plus word of the loop: every accepted document w holds gains its
   * term frequency times w's inverse document frequency, entering the map
   * with that much if it was not there.
   */
  lemma PlusRelevancesStep(index: Index, documents: map<int, DocumentData>, p: seq<string>, w: string,
                           pred: DocumentPredicate, ln: real -> real, after: map<int, real>)
    requires NonEmptyPostings(index)
    requires w in index ==> index[w].Keys <= documents.Keys
    requires forall id :: id in after <==>
      (id in PlusRelevances(index, documents, p, pred, ln)
       || (Hit(index, w, id) && id in documents && pred(id, documents[id].status, documents[id].rating)))
    requires forall id :: id in after ==>
      after[id] == (if id in PlusRelevances(index, documents, p, pred, ln) then PlusRelevances(index, documents, p, pred, ln)[id] else 0.0)
                   + WordScore(index, |documents|, w, id, ln)
    ensures after == PlusRelevances(index, documents, p + [w], pred, ln)
  {
    var before := PlusRelevances(index, documents, p, pred, ln);
    var target := PlusRelevances(index, documents, p + [w], pred, ln);
    forall id
      ensures id in after <==> id in target
    {
      MentionsAppend(index, p, w, id);
    }
    forall id | id in after
      ensures after[id] == target[id]
    {
      MentionsAppend(index, p, w, id);
      assert (p + [w])[..|p + [w]| - 1] == p;
      if id !in before {
        PlusScoreUnmentioned(index, |documents|, p, id, ln);
      }
    }
  }

  /** One minus word of the erase loop: every document w holds leaves the map. */
  lemma UnmentionedStep(relevance: map<int, real>, index: Index, p: seq<string>, w: string, after: map<int, real>)
    requires forall id :: id in after <==> id in Unmentioned(relevance, index, p) && !Hit(index, w, id)
    requires forall id :: id in after ==> after[id] == relevance[id]
    ensures after == Unmentioned(relevance, index, p + [w])
  {
    forall id
      ensures id in after <==> id in Unmentioned(relevance, index, p + [w])
    {
      MentionsAppend(index, p, w, id);
    }
  }

  /** Scoring the plus words and then erasing the minus words' documents gives the relevance map. */
  lemma RelevancesInTwoPasses(index: Index, documents: map<int, DocumentData>, q: Query,
                              pred: DocumentPredicate, ln: real -> real)
    requires NonEmptyPostings(index)
    ensures Unmentioned(PlusRelevances(index, documents, q.plusWords, pred, ln), index, q.minusWords)
         == Relevances(index, documents, q, pred, ln)
  {
  }

  /** Taking the least pending id moves it to the end of the ids taken so far. */
  lemma AscendingIdsTake(all: set<int>, pending: set<int>, taken: seq<int>, m: int)
    requires AscendingIds(all) == taken + AscendingIds(pending)
    requires m in pending && forall k :: k in pending ==> m <= k
    ensures AscendingIds(all) == (taken + [m]) + AscendingIds(pending - {m})
  {
    AscendingIdsFirst(pending, m);
  }

  /** The smallest id comes first, then the rest in order. */
  lemma AscendingIdsFirst(s: set<int>, m: int)
    requires m in s && forall k :: k in s ==> m <= k
    ensures AscendingIds(s) == [m] + AscendingIds(s - {m})
  {
    assert MinOf(s) == m;
  }
}
