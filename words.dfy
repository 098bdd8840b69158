// Word validation and stop-word filtering, shared by indexing and querying.
module Words {
  import opened Wrappers
  import opened SearchTypes

  /** The characters IsValidWord rejects: codes 0 to 31. */
  predicate IsControl(c: char)
  {
    c < ' '
  }

  /** SearchServer::IsValidWord: scans the word for a control character. */
  function IsValidWord(word: string): (valid: bool)
    ensures valid <==> forall i :: 0 <= i < |word| ==> !IsControl(word[i])
    decreases |word|
  {
    if word == [] then true
    else if IsControl(word[0]) then false
    else
      var rest := IsValidWord(word[1..]);
      assert forall i :: 1 <= i < |word| ==> word[i] == word[1..][i - 1];
      rest
  }

  /** What the constructor demands of its stop words once the empty ones are dropped. */
  ghost predicate ValidStopWords(stopWords: set<string>)
  {
    forall w :: w in stopWords ==> w != [] && IsValidWord(w)
  }

  /** MakeUniqueNonEmptyStrings: the distinct non-empty strings of the container. */
  method MakeUniqueNonEmptyStrings(strings: seq<string>) returns (nonEmpty: set<string>)
    ensures forall s :: s in nonEmpty <==> s in strings && s != []
  {
    nonEmpty := {};
    for i := 0 to |strings|
      invariant forall s :: s in nonEmpty <==> s in strings[..i] && s != []
    {
      assert strings[..i + 1] == strings[..i] + [strings[i]];
      if strings[i] != [] {
        nonEmpty := nonEmpty + {strings[i]};
      }
    }
    assert strings[..|strings|] == strings;
  }

  /**
   * SplitIntoWordsNoStop after tokenizing: throws on the first invalid
   * token, otherwise keeps the tokens that are not stop words, in order.
   */
  function WordsNoStop(tokens: seq<string>, stopWords: set<string>): Result<seq<string>, Error>
    decreases |tokens|
  {
    if tokens == [] then Success([])
    else if !IsValidWord(tokens[0]) then Failure(InvalidWord(tokens[0]))
    else
      match WordsNoStop(tokens[1..], stopWords)
      case Failure(e) => Failure(e)
      case Success(rest) => Success(if tokens[0] in stopWords then rest else [tokens[0]] + rest)
  }

  /** Filtering fails exactly when some token is invalid. */
  lemma {:induction false} WordsNoStopFails(tokens: seq<string>, stopWords: set<string>)
    ensures WordsNoStop(tokens, stopWords).Failure? <==> exists t :: t in tokens && !IsValidWord(t)
    decreases |tokens|
  {
    if tokens != [] {
      var t, rest := tokens[0], tokens[1..];
      assert tokens == [t] + rest;
      assert forall u :: u in tokens <==> u == t || u in rest;
      assert t in tokens;
      WordsNoStopFails(rest, stopWords);
    }
  }

  /** A failure names the first invalid token. */
  lemma {:induction false} WordsNoStopFirstError(tokens: seq<string>, stopWords: set<string>)
    ensures var r := WordsNoStop(tokens, stopWords);
      r.Failure? ==> exists i :: 0 <= i < |tokens| && r.error == InvalidWord(tokens[i])
                       && !IsValidWord(tokens[i]) && forall j :: 0 <= j < i ==> IsValidWord(tokens[j])
    decreases |tokens|
  {
    if tokens != [] {
      var t, rest := tokens[0], tokens[1..];
      WordsNoStopFirstError(rest, stopWords);
      var r := WordsNoStop(tokens, stopWords);
      if IsValidWord(t) && r.Failure? {
        var k :| 0 <= k < |rest| && WordsNoStop(rest, stopWords).error == InvalidWord(rest[k])
          && !IsValidWord(rest[k]) && forall j :: 0 <= j < k ==> IsValidWord(rest[j]);
        assert rest[k] == tokens[k + 1];
        forall j | 0 <= j < k + 1
          ensures IsValidWord(tokens[j])
        {
          if j > 0 { assert tokens[j] == rest[j - 1]; }
        }
      }
    }
  }

  /** On success each word is kept as often as it occurs, unless it is a stop word. */
  lemma {:induction false} WordsNoStopCounts(tokens: seq<string>, stopWords: set<string>)
    ensures var r := WordsNoStop(tokens, stopWords);
      r.Success? ==> forall w :: multiset(r.value)[w] == if w in stopWords then 0 else multiset(tokens)[w]
    decreases |tokens|
  {
    if tokens != [] {
      var t, rest := tokens[0], tokens[1..];
      assert tokens == [t] + rest;
      assert multiset(tokens) == multiset{t} + multiset(rest);
      WordsNoStopCounts(rest, stopWords);
    }
  }

  /**
   * Filtering fails exactly when some token is invalid, and then names the
   * first invalid token; otherwise every non-stop word keeps its number of
   * occurrences and every stop word is gone.
   */
  lemma WordsNoStopCorrect(tokens: seq<string>, stopWords: set<string>)
    ensures var r := WordsNoStop(tokens, stopWords);
      && (r.Failure? <==> exists t :: t in tokens && !IsValidWord(t))
      && (r.Failure? ==> exists i :: 0 <= i < |tokens| && r.error == InvalidWord(tokens[i])
                            && !IsValidWord(tokens[i]) && forall j :: 0 <= j < i ==> IsValidWord(tokens[j]))
      && (r.Success? ==> forall w :: multiset(r.value)[w] == if w in stopWords then 0 else multiset(tokens)[w])
  {
    WordsNoStopFails(tokens, stopWords);
    WordsNoStopFirstError(tokens, stopWords);
    WordsNoStopCounts(tokens, stopWords);
  }


  /** Every kept word is a valid word and no stop word: what the index may hold. */
  lemma WordsNoStopKept(tokens: seq<string>, stopWords: set<string>)
    ensures var r := WordsNoStop(tokens, stopWords);
      r.Success? ==> forall w :: w in r.value ==> IsValidWord(w) && w !in stopWords
  {
    WordsNoStopCounts(tokens, stopWords);
    var r := WordsNoStop(tokens, stopWords);
    if r.Success? {
      forall w | w in r.value
        ensures IsValidWord(w) && w !in stopWords
      {
        assert multiset(r.value)[w] > 0;
        assert w in tokens;
      }
    }
  }

  /** The words kept so far in front of the outcome of filtering the remaining tokens. */
  function Prepend(kept: seq<string>, r: Result<seq<string>, Error>): Result<seq<string>, Error>
  {
    match r
    case Failure(e) => Failure(e)
    case Success(rest) => Success(kept + rest)
  }

  lemma PrependNothing(r: Result<seq<string>, Error>)
    ensures Prepend([], r) == r
  {
    if r.Success? {
      assert [] + r.value == r.value;
    }
  }
}
