// Query parsing: ParseQueryWord classifies one token, ParseQuery folds the
// tokens of a query into its plus-word and minus-word sets.
module QueryParsing {
  import opened Wrappers
  import opened SearchTypes
  import opened OrderedStrings
  import opened Words

  predicate StartsWithMinus(word: string)
  {
    word != [] && word[0] == '-'
  }

  /** A word a query token can carry: non-empty, no leading '-', no control character. */
  predicate IsQueryWordData(word: string)
  {
    word != [] && !StartsWithMinus(word) && IsValidWord(word)
  }

  /** The token a query word is written as: a minus-word carries one leading '-'. */
  function Render(word: string, isMinus: bool): string
  {
    if isMinus then ['-'] + word else word
  }

  /**
   * SearchServer::ParseQueryWord. Succeeds only on the rendering of a
   * well-formed word; the result remembers the sign and stop-word status.
   */
  function ParseQueryWord(text: string, stopWords: set<string>): (r: Result<QueryWord, Error>)
    ensures r.Success? ==> IsQueryWordData(r.value.data) && Render(r.value.data, r.value.isMinus) == text
    ensures r.Success? ==> r.value.isStop == (r.value.data in stopWords)
    ensures r.Failure? ==> r.error == if text == [] then EmptyQueryWord else InvalidQueryWord(text)
  {
    if text == [] then Failure(EmptyQueryWord)
    else
      var isMinus := text[0] == '-';
      var word := if isMinus then text[1..] else text;
      if word == [] || word[0] == '-' || !IsValidWord(word) then Failure(InvalidQueryWord(text))
      else
        assert isMinus ==> text == ['-'] + word;
        Success(QueryWord(word, isMinus, word in stopWords))
  }

  /** Conversely, every well-formed word parses back from its rendering, so the two are inverse. */
  lemma ParseQueryWordOfRender(word: string, isMinus: bool, stopWords: set<string>)
    requires IsQueryWordData(word)
    ensures ParseQueryWord(Render(word, isMinus), stopWords) == Success(QueryWord(word, isMinus, word in stopWords))
  {
    if isMinus {
      assert Render(word, isMinus)[1..] == word;
    }
  }

  /** Both word sets iterate in std::set order. */
  ghost predicate WellFormedQuery(q: Query)
  {
    StrictlySorted(q.plusWords) && StrictlySorted(q.minusWords)
  }

  /** One step of ParseQuery: a stop word is dropped, any other word goes into the set its sign names. */
  function AddQueryWord(q: Query, w: QueryWord): (r: Query)
    requires WellFormedQuery(q)
    ensures WellFormedQuery(r)
  {
    if w.isStop then q
    else if w.isMinus then q.(minusWords := Insert(q.minusWords, w.data))
    else q.(plusWords := Insert(q.plusWords, w.data))
  }

  /** SearchServer::ParseQuery over the query's tokens: the first failing token's error, or the query. */
  function ParseTokens(tokens: seq<string>, stopWords: set<string>): (r: Result<Query, Error>)
    ensures r.Success? ==> WellFormedQuery(r.value)
    decreases |tokens|
  {
    if tokens == [] then Success(Query([], []))
    else
      match ParseTokens(tokens[..|tokens| - 1], stopWords)
      case Failure(e) => Failure(e)
      case Success(q) =>
        match ParseQueryWord(tokens[|tokens| - 1], stopWords)
        case Failure(e) => Failure(e)
        case Success(w) => Success(AddQueryWord(q, w))
  }

  /** The rest of ParseQuery's loop: parse tokens[i..] into q, the query parsed so far. */
  function ParseFrom(tokens: seq<string>, i: nat, q: Query, stopWords: set<string>): Result<Query, Error>
    requires i <= |tokens| && WellFormedQuery(q)
    decreases |tokens| - i
  {
    if i == |tokens| then Success(q)
    else
      match ParseQueryWord(tokens[i], stopWords)
      case Failure(e) => Failure(e)
      case Success(w) => ParseFrom(tokens, i + 1, AddQueryWord(q, w), stopWords)
  }

  /** Parsing the first i tokens and then the rest is parsing them all. */
  lemma {:induction false} ParseFromPrefix(tokens: seq<string>, i: nat, q: Query, stopWords: set<string>)
    requires i <= |tokens| && WellFormedQuery(q)
    requires ParseTokens(tokens[..i], stopWords) == Success(q)
    ensures ParseTokens(tokens, stopWords) == ParseFrom(tokens, i, q, stopWords)
    decreases |tokens| - i
  {
    if i == |tokens| {
      assert tokens[..i] == tokens;
    } else {
      assert tokens[..i + 1][..i] == tokens[..i];
      match ParseQueryWord(tokens[i], stopWords)
      case Failure(e) =>
        ParseTokensFailurePersists(tokens, i + 1, stopWords);
      case Success(w) =>
        ParseFromPrefix(tokens, i + 1, AddQueryWord(q, w), stopWords);
    }
  }

  /** Once a prefix of the tokens fails, the whole query fails with the same error. */
  lemma {:induction false} ParseTokensFailurePersists(tokens: seq<string>, i: nat, stopWords: set<string>)
    requires i <= |tokens|
    requires ParseTokens(tokens[..i], stopWords).Failure?
    ensures ParseTokens(tokens, stopWords) == ParseTokens(tokens[..i], stopWords)
    decreases |tokens| - i
  {
    if i < |tokens| {
      assert tokens[..i + 1][..i] == tokens[..i];
      ParseTokensFailurePersists(tokens, i + 1, stopWords);
    } else {
      assert tokens[..i] == tokens;
    }
  }

  /** A query parses exactly when each of its tokens parses. */
  lemma {:induction false} ParseTokensSucceeds(tokens: seq<string>, stopWords: set<string>)
    ensures ParseTokens(tokens, stopWords).Success? <==> forall t :: t in tokens ==> ParseQueryWord(t, stopWords).Success?
    decreases |tokens|
  {
    if tokens != [] {
      var init, t := tokens[..|tokens| - 1], tokens[|tokens| - 1];
      assert tokens == init + [t];
      assert forall u :: u in tokens <==> u in init || u == t;
      ParseTokensSucceeds(init, stopWords);
    }
  }

  /** A query that does not parse reports the error of its first bad token. */
  lemma {:induction false} ParseTokensFirstError(tokens: seq<string>, stopWords: set<string>)
    ensures var r := ParseTokens(tokens, stopWords);
      r.Failure? ==> exists i :: 0 <= i < |tokens| && ParseQueryWord(tokens[i], stopWords) == Failure(r.error)
                       && forall j :: 0 <= j < i ==> ParseQueryWord(tokens[j], stopWords).Success?
    decreases |tokens|
  {
    if tokens != [] {
      var init, t := tokens[..|tokens| - 1], tokens[|tokens| - 1];
      ParseTokensFirstError(init, stopWords);
      var p := ParseTokens(init, stopWords);
      if p.Failure? {
        var i :| 0 <= i < |init| && ParseQueryWord(init[i], stopWords) == Failure(p.error)
          && forall j :: 0 <= j < i ==> ParseQueryWord(init[j], stopWords).Success?;
        assert tokens[i] == init[i];
        assert forall j :: 0 <= j < i ==> tokens[j] == init[j];
      } else if ParseQueryWord(t, stopWords).Failure? {
        ParseTokensSucceeds(init, stopWords);
        assert forall j :: 0 <= j < |init| ==> tokens[j] == init[j] && init[j] in init;
      }
    }
  }

  /**
   * On success a word is a plus-word iff it occurs as an unsigned token and
   * is no stop word, and a minus-word iff it occurs with a '-' prefix and is
   * no stop word.
   */
  lemma {:induction false} ParseTokensWords(tokens: seq<string>, stopWords: set<string>)
    ensures var r := ParseTokens(tokens, stopWords);
      r.Success? ==> forall w ::
        && (w in r.value.plusWords <==> w in tokens && w !in stopWords && !StartsWithMinus(w))
        && (w in r.value.minusWords <==> ['-'] + w in tokens && w !in stopWords)
    decreases |tokens|
  {
    if tokens != [] {
      var init, t := tokens[..|tokens| - 1], tokens[|tokens| - 1];
      assert tokens == init + [t];
      assert forall u :: u in tokens <==> u in init || u == t;
      ParseTokensWords(init, stopWords);
      var p := ParseTokens(init, stopWords);
      if p.Success? && ParseQueryWord(t, stopWords).Success? {
        var w := ParseQueryWord(t, stopWords).value;
        if w.isMinus {
          assert t == ['-'] + w.data;
          forall v | ['-'] + v == t
            ensures v == w.data
          {
            assert v == t[1..];
          }
        }
      }
    }
  }

  /**
   * A query parses exactly when each token parses, and otherwise reports the
   * first bad token; on success its word sets are as ParseTokensWords says.
   */
  lemma ParseTokensCorrect(tokens: seq<string>, stopWords: set<string>)
    ensures var r := ParseTokens(tokens, stopWords);
      && (r.Success? <==> forall t :: t in tokens ==> ParseQueryWord(t, stopWords).Success?)
      && (r.Failure? ==> exists i :: 0 <= i < |tokens| && ParseQueryWord(tokens[i], stopWords) == Failure(r.error)
                            && forall j :: 0 <= j < i ==> ParseQueryWord(tokens[j], stopWords).Success?)
      && (r.Success? ==> forall w ::
            && (w in r.value.plusWords <==> w in tokens && w !in stopWords && !StartsWithMinus(w))
            && (w in r.value.minusWords <==> ['-'] + w in tokens && w !in stopWords))
  {
    ParseTokensSucceeds(tokens, stopWords);
    ParseTokensFirstError(tokens, stopWords);
    ParseTokensWords(tokens, stopWords);
  }
}
