// class SearchServer: the stop words fixed at construction, the inverted
// index, the document store and the ids in insertion order, with the
// operations that fill and query them.
module Server {
  import opened Wrappers
  import opened SearchTypes
  import opened Tokenizer
  import opened Words
  import opened OrderedStrings
  import opened QueryParsing
  import opened Indexing
  import opened Ranking
  import opened Scoring

  /** The predicate FindTopDocuments builds from a status: the document has that status. */
  function StatusIs(status: DocumentStatus): DocumentPredicate
  {
    (id: int, documentStatus: DocumentStatus, rating: int) => documentStatus == status
  }

  /**
   * ScoreWord's loop state: the documents of the postings already visited
   * that the predicate accepts have gained term frequency times idf.
   */
  ghost predicate Accumulated(relevance: map<int, real>, before: map<int, real>, postings: map<int, real>,
                              pending: set<int>, accepted: set<int>, idf: real)
  {
    && (forall id :: id in relevance <==> id in before || (id in postings && id !in pending && id in accepted))
    && (forall id :: id in relevance ==>
          relevance[id] == (if id in before then before[id] else 0.0)
                           + (if id in postings && id !in pending && id in accepted then Scale(postings[id], idf) else 0.0))
  }

  /** Visiting one pending posting keeps the loop state. */
  lemma AccumulateStep(relevance: map<int, real>, before: map<int, real>, postings: map<int, real>,
                       pending: set<int>, accepted: set<int>, idf: real, id: int)
    requires Accumulated(relevance, before, postings, pending, accepted, idf)
    requires id in pending && pending <= postings.Keys
    ensures Accumulated(if id in accepted then relevance[id := (if id in relevance then relevance[id] else 0.0) + Scale(postings[id], idf)]
                        else relevance,
                        before, postings, pending - {id}, accepted, idf)
  {
  }

  /** The document store and the id list: non-negative ids, each stored id listed exactly once. */
  ghost predicate ValidStore(documents: map<int, DocumentData>, documentIds: seq<int>)
  {
    && (forall id :: id in documents ==> id >= 0)
    && (forall i, j :: 0 <= i < j < |documentIds| ==> documentIds[i] != documentIds[j])
    && (forall id :: id in documents <==> id in documentIds)
    && |documentIds| == |documents|
  }

  /** The engine's invariant: valid stop words, a well-formed index over the stored documents, a consistent store. */
  ghost predicate ValidState(stopWords: set<string>, index: Index, documents: map<int, DocumentData>, documentIds: seq<int>)
  {
    && ValidStopWords(stopWords)
    && WellFormedIndex(index, stopWords, documents.Keys)
    && ValidStore(documents, documentIds)
  }

  /**
   * A successful AddDocument keeps the invariant: the id is fresh and
   * non-negative, and the new index is well formed over the stored ids and
   * the new one.
   */
  lemma AddDocumentKeepsValid(stopWords: set<string>, index: Index, documents: map<int, DocumentData>, documentIds: seq<int>,
                              id: int, data: DocumentData)
    requires ValidStopWords(stopWords) && ValidStore(documents, documentIds)
    requires id >= 0 && id !in documents
    requires WellFormedIndex(index, stopWords, documents.Keys + {id})
    ensures ValidState(stopWords, index, documents[id := data], documentIds + [id])
    ensures |documents[id := data]| == |documents| + 1
  {
    assert documents[id := data].Keys == documents.Keys + {id};
    AppendFreshId(documentIds, documents, id, data);
  }

  /** In a valid state every word has postings, and only for stored documents. */
  lemma ValidStatePostings(stopWords: set<string>, index: Index, documents: map<int, DocumentData>, documentIds: seq<int>)
    requires ValidState(stopWords, index, documents, documentIds)
    ensures NonEmptyPostings(index)
    ensures forall w :: w in index ==> index[w].Keys <= documents.Keys
  {
  }

  /**
   * A double space gives an empty token, but the first bad token decides the
   * error: "-  x" fails on the bare "-", not on the empty token after it.
   */
  lemma EarlierInvalidTokenWins()
    ensures Split("-  x") == ["-", "", "x"]
    ensures ParseTokens(Split("-  x"), {}) == Failure(InvalidQueryWord("-"))
  {
    SplitDoubleSpace();
    BareMinusFails();
    var tokens := ["-", "", "x"];
    assert tokens[..1] == ["-"];
    ParseTokensFailurePersists(tokens, 1, {});
  }

  /** The double space leaves an empty token between "-" and "x". */
  lemma SplitDoubleSpace()
    ensures Split("-  x") == ["-", "", "x"]
  {
    SplitCons("", "x");
    assert "" + [Space] + "x" == " x";
    SplitCons("-", " x");
    assert "-" + [Space] + " x" == "-  x";
    assert Find("x", Space) == -1;
  }

  /** A bare "-" is an invalid query word. */
  lemma BareMinusFails()
    ensures ParseTokens(["-"], {}) == Failure(InvalidQueryWord("-"))
  {
    assert ["-"][..0] == [];
  }

  /** Recording a fresh id keeps the id list and the document store in step. */
  lemma AppendFreshId(ids: seq<int>, documents: map<int, DocumentData>, id: int, data: DocumentData)
    requires forall i, j :: 0 <= i < j < |ids| ==> ids[i] != ids[j]
    requires forall k :: k in documents <==> k in ids
    requires |ids| == |documents| && id !in documents
    ensures var ids', documents' := ids + [id], documents[id := data];
      && (forall i, j :: 0 <= i < j < |ids'| ==> ids'[i] != ids'[j])
      && (forall k :: k in documents' <==> k in ids')
      && |ids'| == |documents'|
  {
    var ids' := ids + [id];
    forall i, j | 0 <= i < j < |ids'|
      ensures ids'[i] != ids'[j]
    {
      if j == |ids| {
        assert ids'[i] == ids[i] && ids[i] in ids;
      }
    }
  }

  class SearchServer {
    const stopWords: set<string>
    var wordToDocumentFreqs: Index
    var documents: map<int, DocumentData>
    var documentIds: seq<int>

    ghost predicate Valid()
      reads this
    {
      ValidState(stopWords, wordToDocumentFreqs, documents, documentIds)
    }

    /** The engine right after construction, once its stop words are known to be valid. */
    constructor (stopWords: set<string>)
      requires ValidStopWords(stopWords)
      ensures Valid()
      ensures this.stopWords == stopWords
      ensures wordToDocumentFreqs == map[] && documents == map[] && documentIds == []
    {
      this.stopWords := stopWords;
      wordToDocumentFreqs := map[];
      documents := map[];
      documentIds := [];
    }

    /**
     * The constructor from a container of stop words: keeps the distinct
     * non-empty ones and throws when one of them holds a control character.
     */
    static method FromWords(stopWords: seq<string>) returns (r: Result<SearchServer, Error>)
      ensures r.Success? <==> forall w :: w in stopWords ==> IsValidWord(w)
      ensures r.Failure? ==> r.error == InvalidStopWords
      ensures r.Success? ==> fresh(r.value) && r.value.Valid()
      ensures r.Success? ==> forall w :: w in r.value.stopWords <==> w in stopWords && w != []
      ensures r.Success? ==> r.value.documents == map[] && r.value.documentIds == [] && r.value.wordToDocumentFreqs == map[]
    {
      var nonEmpty := MakeUniqueNonEmptyStrings(stopWords);
      if !(forall w :: w in nonEmpty ==> IsValidWord(w)) {
        return Failure(InvalidStopWords);
      }
      var server := new SearchServer(nonEmpty);
      return Success(server);
    }

    /** The constructor from a string: its stop words are the tokens of the text. */
    static method FromText(stopWordsText: string) returns (r: Result<SearchServer, Error>)
      ensures r.Success? <==> forall w :: w in Split(stopWordsText) ==> IsValidWord(w)
      ensures r.Failure? ==> r.error == InvalidStopWords
      ensures r.Success? ==> fresh(r.value) && r.value.Valid()
      ensures r.Success? ==> forall w :: w in r.value.stopWords <==> w in Split(stopWordsText) && w != []
      ensures r.Success? ==> r.value.documents == map[] && r.value.documentIds == [] && r.value.wordToDocumentFreqs == map[]
    {
      var words := SplitIntoWords(stopWordsText);
      r := FromWords(words);
    }

    /** SplitIntoWordsNoStop: tokenizes, throws on the first invalid token, drops the stop words. */
    method SplitIntoWordsNoStop(text: string) returns (r: Result<seq<string>, Error>)
      ensures r == WordsNoStop(Split(text), stopWords)
    {
      var tokens := SplitIntoWords(text);
      var words: seq<string> := [];
      assert tokens[0..] == tokens;
      PrependNothing(WordsNoStop(tokens, stopWords));
      for i := 0 to |tokens|
        invariant WordsNoStop(tokens, stopWords) == Prepend(words, WordsNoStop(tokens[i..], stopWords))
      {
        var word := tokens[i];
        assert tokens[i..][0] == word && tokens[i..][1..] == tokens[i + 1..];
        if !IsValidWord(word) {
          return Failure(InvalidWord(word));
        }
        if word !in stopWords {
          var rest := WordsNoStop(tokens[i + 1..], stopWords);
          if rest.Success? {
            assert words + ([word] + rest.value) == (words + [word]) + rest.value;
          }
          words := words + [word];
        }
      }
      assert tokens[|tokens|..] == [];
      assert words + [] == words;
      return Success(words);
    }

    /** ComputeAverageRating: sums the ratings, then divides with truncation toward zero. */
    static method ComputeAverageRating(ratings: seq<int>) returns (rating: int)
      ensures rating == AverageRating(ratings)
    {
      if |ratings| == 0 {
        return 0;
      }
      var ratingSum := 0;
      for i := 0 to |ratings|
        invariant ratingSum == Sum(ratings[..i])
      {
        assert ratings[..i + 1][..i] == ratings[..i];
        ratingSum := ratingSum + ratings[i];
      }
      assert ratings[..|ratings|] == ratings;
      return TruncatingDiv(ratingSum, |ratings|);
    }

    /**
     * AddDocument: rejects a negative or used id, then an invalid word, and
     * changes nothing when it does; otherwise adds the term frequency of
     * every kept word under the id, stores the average rating and status,
     * and appends the id.
     */
    method AddDocument(id: int, document: string, status: DocumentStatus, ratings: seq<int>) returns (outcome: Outcome<Error>)
      requires Valid()
      modifies this
      ensures Valid()
      ensures outcome == (if id < 0 || id in old(documents) then Fail(InvalidDocumentId(id))
                          else match WordsNoStop(Split(document), stopWords)
                               case Failure(e) => Fail(e)
                               case Success(_) => Pass)
      ensures outcome.Fail? ==> unchanged(this)
      ensures outcome.Pass? ==>
        && wordToDocumentFreqs == AddPostings(old(wordToDocumentFreqs), id, WordsNoStop(Split(document), stopWords).value)
        && documents == old(documents)[id := DocumentData(AverageRating(ratings), status)]
        && documentIds == old(documentIds) + [id]
        && |documents| == old(|documents|) + 1
    {
      if id < 0 || id in documents {
        return Fail(InvalidDocumentId(id));
      }
      var split := SplitIntoWordsNoStop(document);
      if split.Failure? {
        return Fail(split.error);
      }
      var words := split.value;
      ghost var index := wordToDocumentFreqs;
      WordsNoStopKept(Split(document), stopWords);
      AddWordSharesCorrect(index, stopWords, documents.Keys, id, words);

      var invWordCount := InverseWordCount(words);
      AddWordShares(id, words, invWordCount);
      assert wordToDocumentFreqs == AddPostings(index, id, words);

      var rating := ComputeAverageRating(ratings);
      AddDocumentKeepsValid(stopWords, wordToDocumentFreqs, documents, documentIds, id, DocumentData(rating, status));
      documents := documents[id := DocumentData(rating, status)];
      documentIds := documentIds + [id];
      return Pass;
    }

    /** AddDocument's loop: word_to_document_freqs_[word][id] += share for every kept word in turn. */
    method AddWordShares(id: int, words: seq<string>, share: real)
      modifies this
      ensures wordToDocumentFreqs == AddShares(old(wordToDocumentFreqs), id, words, share)
      ensures documents == old(documents) && documentIds == old(documentIds)
    {
      for i := 0 to |words|
        invariant wordToDocumentFreqs == AddShares(old(wordToDocumentFreqs), id, words[..i], share)
        invariant documents == old(documents) && documentIds == old(documentIds)
      {
        var word := words[i];
        var postings := if word in wordToDocumentFreqs then wordToDocumentFreqs[word] else map[];
        var current := if id in postings then postings[id] else 0.0;
        wordToDocumentFreqs := wordToDocumentFreqs[word := postings[id := current + share]];
        assert words[..i + 1][..i] == words[..i];
      }
      assert words[..|words|] == words;
    }

    /** ParseQuery: parses every token in turn, throwing on the first bad one. */
    method ParseQuery(text: string) returns (r: Result<Query, Error>)
      ensures r == ParseTokens(Split(text), stopWords)
    {
      var tokens := SplitIntoWords(text);
      var query := Query([], []);
      assert tokens[..0] == [];
      ParseFromPrefix(tokens, 0, query, stopWords);
      for i := 0 to |tokens|
        invariant WellFormedQuery(query)
        invariant ParseTokens(tokens, stopWords) == ParseFrom(tokens, i, query, stopWords)
      {
        var queryWord := ParseQueryWord(tokens[i], stopWords);
        if queryWord.Failure? {
          return Failure(queryWord.error);
        }
        var word := queryWord.value;
        if !word.isStop {
          if word.isMinus {
            query := query.(minusWords := Insert(query.minusWords, word.data));
          } else {
            query := query.(plusWords := Insert(query.plusWords, word.data));
          }
        }
      }
      return Success(query);
    }

    /**
     * FindAllDocuments: scores the accepted documents of every plus word,
     * erases the documents of every minus word, and lists the rest by
     * increasing id.
     */
    method FindAllDocuments(query: Query, pred: DocumentPredicate, ln: real -> real) returns (matched: seq<Document>)
      requires Valid()
      ensures matched == MatchedDocuments(Relevances(wordToDocumentFreqs, documents, query, pred, ln), documents)
    {
      ValidStatePostings(stopWords, wordToDocumentFreqs, documents, documentIds);
      var relevance := ScorePlusWords(query.plusWords, pred, ln);
      ghost var scored := relevance;
      relevance := EraseMinusWords(relevance, query.minusWords);
      RelevancesInTwoPasses(wordToDocumentFreqs, documents, query, pred, ln);
      matched := ListByIncreasingId(relevance);
    }

    /** The first loop of FindAllDocuments. */
    method ScorePlusWords(plusWords: seq<string>, pred: DocumentPredicate, ln: real -> real) returns (relevance: map<int, real>)
      requires NonEmptyPostings(wordToDocumentFreqs)
      requires forall w :: w in wordToDocumentFreqs ==> wordToDocumentFreqs[w].Keys <= documents.Keys
      ensures relevance == PlusRelevances(wordToDocumentFreqs, documents, plusWords, pred, ln)
    {
      relevance := map[];
      for i := 0 to |plusWords|
        invariant relevance == PlusRelevances(wordToDocumentFreqs, documents, plusWords[..i], pred, ln)
      {
        var word := plusWords[i];
        assert plusWords[..i + 1] == plusWords[..i] + [word];
        if word !in wordToDocumentFreqs {
          PlusRelevancesStep(wordToDocumentFreqs, documents, plusWords[..i], word, pred, ln, relevance);
          continue;
        }
        relevance := ScoreWord(relevance, word, pred, ln);
        PlusRelevancesStep(wordToDocumentFreqs, documents, plusWords[..i], word, pred, ln, relevance);
      }
      assert plusWords[..|plusWords|] == plusWords;
    }

    /** One plus word: every accepted document in its postings gains term frequency times IDF. */
    method ScoreWord(before: map<int, real>, word: string, pred: DocumentPredicate, ln: real -> real) returns (relevance: map<int, real>)
      requires NonEmptyPostings(wordToDocumentFreqs)
      requires word in wordToDocumentFreqs && wordToDocumentFreqs[word].Keys <= documents.Keys
      ensures forall id :: id in relevance <==>
        (id in before || (Hit(wordToDocumentFreqs, word, id) && id in documents && pred(id, documents[id].status, documents[id].rating)))
      ensures forall id :: id in relevance ==>
        relevance[id] == (if id in before then before[id] else 0.0)
                         + (if Hit(wordToDocumentFreqs, word, id) && pred(id, documents[id].status, documents[id].rating)
                            then WordScore(wordToDocumentFreqs, |documents|, word, id, ln) else 0.0)
    {
      var idf := InverseDocumentFreq(wordToDocumentFreqs, |documents|, word, ln);
      var postings := wordToDocumentFreqs[word];
      relevance := before;
      var pending := postings.Keys;
      ghost var accepted := set id | id in postings && id in documents && pred(id, documents[id].status, documents[id].rating);
      while pending != {}
        invariant pending <= postings.Keys
        invariant Accumulated(relevance, before, postings, pending, accepted, idf)
        decreases pending
      {
        HasElement(pending);
        var id :| id in pending;
        var data := documents[id];
        ghost var current := relevance;
        if pred(id, data.status, data.rating) {
          relevance := relevance[id := (if id in relevance then relevance[id] else 0.0) + Scale(postings[id], idf)];
        }
        AccumulateStep(current, before, postings, pending, accepted, idf, id);
        pending := pending - {id};
      }
    }

    /** The second loop of FindAllDocuments: erases the documents each minus word holds. */
    method EraseMinusWords(scored: map<int, real>, minusWords: seq<string>) returns (relevance: map<int, real>)
      ensures relevance == Unmentioned(scored, wordToDocumentFreqs, minusWords)
    {
      relevance := scored;
      for i := 0 to |minusWords|
        invariant relevance == Unmentioned(scored, wordToDocumentFreqs, minusWords[..i])
      {
        var word := minusWords[i];
        assert minusWords[..i + 1] == minusWords[..i] + [word];
        if word !in wordToDocumentFreqs {
          UnmentionedStep(scored, wordToDocumentFreqs, minusWords[..i], word, relevance);
          continue;
        }
        ghost var before := relevance;
        var pending := wordToDocumentFreqs[word].Keys;
        while pending != {}
          invariant pending <= wordToDocumentFreqs[word].Keys
          invariant forall id :: id in relevance <==> id in before && !(id in wordToDocumentFreqs[word] && id !in pending)
          invariant forall id :: id in relevance ==> relevance[id] == before[id]
          decreases pending
        {
          HasElement(pending);
          var id :| id in pending;
          relevance := relevance - {id};
          pending := pending - {id};
        }
        UnmentionedStep(scored, wordToDocumentFreqs, minusWords[..i], word, relevance);
      }
      assert minusWords[..|minusWords|] == minusWords;
    }

    /** The last loop of FindAllDocuments: walks the map in key order and builds the Documents. */
    method ListByIncreasingId(relevance: map<int, real>) returns (matched: seq<Document>)
      requires relevance.Keys <= documents.Keys
      ensures matched == MatchedDocuments(relevance, documents)
    {
      matched := [];
      var pending := relevance.Keys;
      ghost var taken: seq<int> := [];
      while pending != {}
        invariant pending <= relevance.Keys
        invariant forall i :: 0 <= i < |taken| ==> taken[i] in relevance && taken[i] in documents
        invariant AscendingIds(relevance.Keys) == taken + AscendingIds(pending)
        invariant matched == ToDocuments(taken, relevance, documents)
        decreases pending
      {
        MinExists(pending);
        var id :| id in pending && forall k :: k in pending ==> id <= k;
        AscendingIdsTake(relevance.Keys, pending, taken, id);
        ToDocumentsSnoc(taken, id, relevance, documents);
        matched := matched + [Document(id, relevance[id], documents[id].rating)];
        taken := taken + [id];
        pending := pending - {id};
      }
    }

    /** What FindTopDocuments returns for a query text and a predicate: the parse error, or the top matches. */
    ghost function TopDocumentsFor(rawQuery: string, pred: DocumentPredicate, ln: real -> real): Result<seq<Document>, Error>
      reads this
      requires Valid()
    {
      match ParseTokens(Split(rawQuery), stopWords)
      case Failure(e) => Failure(e)
      case Success(q) => Success(TopDocuments(MatchedDocuments(Relevances(wordToDocumentFreqs, documents, q, pred, ln), documents)))
    }

    /**
     * FindTopDocuments: parses the query, finds the matches, sorts them by
     * the comparator and keeps at most MaxResultDocumentCount. Each result is
     * a stored document the predicate accepts, with its stored rating.
     */
    method FindTopDocuments(rawQuery: string, pred: DocumentPredicate, ln: real -> real) returns (r: Result<seq<Document>, Error>)
      requires Valid()
      ensures r == TopDocumentsFor(rawQuery, pred, ln)
      ensures r.Failure? <==> ParseTokens(Split(rawQuery), stopWords).Failure?
      ensures r.Success? ==> |r.value| <= MaxResultDocumentCount
      ensures r.Success? ==> forall d :: d in r.value ==>
        d.id in documents && pred(d.id, documents[d.id].status, documents[d.id].rating) && d.rating == documents[d.id].rating
    {
      var parsed := ParseQuery(rawQuery);
      if parsed.Failure? {
        return Failure(parsed.error);
      }
      var query := parsed.value;
      var matched := FindAllDocuments(query, pred, ln);
      var sorted := SortAndResize(matched);
      ValidStatePostings(stopWords, wordToDocumentFreqs, documents, documentIds);
      TopDocumentsQualify(wordToDocumentFreqs, documents, query, pred, ln);
      return Success(sorted);
    }

    /** FindTopDocuments with a status: the documents with that status. */
    method FindTopDocumentsByStatus(rawQuery: string, status: DocumentStatus, ln: real -> real) returns (r: Result<seq<Document>, Error>)
      requires Valid()
      ensures r == TopDocumentsFor(rawQuery, StatusIs(status), ln)
      ensures r.Success? ==> forall d :: d in r.value ==> d.id in documents && documents[d.id].status == status
    {
      r := FindTopDocuments(rawQuery, StatusIs(status), ln);
    }

    /** FindTopDocuments with the query alone: the ACTUAL documents. */
    method FindActualTopDocuments(rawQuery: string, ln: real -> real) returns (r: Result<seq<Document>, Error>)
      requires Valid()
      ensures r == TopDocumentsFor(rawQuery, StatusIs(Actual), ln)
      ensures r.Success? ==> forall d :: d in r.value ==> d.id in documents && documents[d.id].status == Actual
    {
      r := FindTopDocumentsByStatus(rawQuery, Actual, ln);
    }

    /** GetDocumentCount: the number of stored documents, which is the length of the id list. */
    function GetDocumentCount(): (count: nat)
      reads this
      requires Valid()
      ensures count == |documentIds|
    {
      |documents|
    }

    /** GetDocumentId: the id added index-th, or out_of_range past either end. */
    function GetDocumentId(index: int): (r: Result<int, Error>)
      reads this
      requires Valid()
      ensures r.Success? <==> 0 <= index < GetDocumentCount()
      ensures r.Success? ==> r.value in documents && r.value == documentIds[index]
      ensures r.Failure? ==> r.error == IndexOutOfRange(index)
    {
      if 0 <= index < |documentIds| then
        assert documentIds[index] in documentIds;
        Success(documentIds[index])
      else Failure(IndexOutOfRange(index))
    }

    /**
     * MatchDocument: the parse error first; otherwise the plus words the
     * document holds (none if it holds a minus word) and its status, or
     * out_of_range for an id that is not stored.
     */
    method MatchDocument(rawQuery: string, id: int) returns (r: Result<(seq<string>, DocumentStatus), Error>)
      ensures match ParseTokens(Split(rawQuery), stopWords)
        case Failure(e) => r == Failure(e)
        case Success(q) => r == if id in documents then Success((MatchedWords(wordToDocumentFreqs, q, id), documents[id].status))
                                else Failure(DocumentNotFound(id))
    {
      var parsed := ParseQuery(rawQuery);
      if parsed.Failure? {
        return Failure(parsed.error);
      }
      var query := parsed.value;
      var matchedWords := CollectPlusHits(query.plusWords, id);
      matchedWords := ClearOnMinusHit(query.minusWords, id, matchedWords);
      if id !in documents {
        return Failure(DocumentNotFound(id));
      }
      return Success((matchedWords, documents[id].status));
    }

    /** The first loop of MatchDocument: the plus words whose postings hold the document, in order. */
    method CollectPlusHits(plusWords: seq<string>, id: int) returns (matchedWords: seq<string>)
      ensures matchedWords == HitsOf(wordToDocumentFreqs, plusWords, id)
    {
      matchedWords := [];
      for i := 0 to |plusWords|
        invariant matchedWords == HitsOf(wordToDocumentFreqs, plusWords[..i], id)
      {
        var word := plusWords[i];
        assert plusWords[..i + 1][..i] == plusWords[..i];
        if word !in wordToDocumentFreqs {
          continue;
        }
        if id in wordToDocumentFreqs[word] {
          matchedWords := matchedWords + [word];
        }
      }
      assert plusWords[..|plusWords|] == plusWords;
    }

    /** The second loop of MatchDocument: the list is cleared as soon as a minus word's postings hold the document. */
    method ClearOnMinusHit(minusWords: seq<string>, id: int, matchedWords: seq<string>) returns (result: seq<string>)
      ensures result == if Mentions(wordToDocumentFreqs, minusWords, id) then [] else matchedWords
    {
      result := matchedWords;
      for i := 0 to |minusWords|
        invariant result == matchedWords
        invariant forall j :: 0 <= j < i ==> !Hit(wordToDocumentFreqs, minusWords[j], id)
      {
        var word := minusWords[i];
        if word !in wordToDocumentFreqs {
          continue;
        }
        if id in wordToDocumentFreqs[word] {
          assert Hit(wordToDocumentFreqs, minusWords[i], id);
          result := [];
          return;
        }
      }
    }
  }
}
