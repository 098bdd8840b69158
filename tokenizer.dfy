// SplitIntoWords: the engine's only tokenizer. It cuts text at every ASCII
// space, so runs of spaces and leading or trailing spaces give empty tokens.
module Tokenizer {

  const Space: char := ' '

  /** string_view::find for one character: the first index of c, or -1 for npos. */
  function Find(s: string, c: char): (i: int)
    ensures -1 <= i < |s|
    ensures i == -1 <==> c !in s
    ensures 0 <= i ==> s[i] == c && c !in s[..i]
    decreases |s|
  {
    if s == [] then -1
    else if s[0] == c then 0
    else
      var j := Find(s[1..], c);
      assert j >= 0 ==> s[..j + 1] == [s[0]] + s[1..][..j];
      if j == -1 then -1 else j + 1
  }

  /** The tokens SplitIntoWords returns: the text before the first space, then the tokens of the rest. */
  function Split(s: string): seq<string>
    decreases |s|
  {
    var i := Find(s, Space);
    if i == -1 then [s] else [s[..i]] + Split(s[i + 1..])
  }

  /** The inverse of Split: the words with one space between neighbours. */
  function Join(words: seq<string>): string
    requires |words| >= 1
    decreases |words|
  {
    if |words| == 1 then words[0] else words[0] + [Space] + Join(words[1..])
  }

  lemma CutAt(s: string, i: int)
    requires 0 <= i < |s|
    ensures s == s[..i] + [s[i]] + s[i + 1..]
  {
  }

  /** One token more than there are spaces. */
  lemma {:induction false} SplitCount(s: string)
    ensures |Split(s)| == multiset(s)[Space] + 1
    decreases |s|
  {
    var i := Find(s, Space);
    if i != -1 {
      CutAt(s, i);
      assert multiset(s) == multiset(s[..i]) + multiset([s[i]]) + multiset(s[i + 1..]);
      SplitCount(s[i + 1..]);
    }
  }

  /** No token contains a space. */
  lemma {:induction false} SplitNoSpace(s: string)
    ensures forall t :: t in Split(s) ==> Space !in t
    decreases |s|
  {
    var i := Find(s, Space);
    if i != -1 {
      SplitNoSpace(s[i + 1..]);
    }
  }

  /** Joining the tokens with spaces gives back the text. */
  lemma {:induction false} JoinSplit(s: string)
    ensures |Split(s)| >= 1 && Join(Split(s)) == s
    decreases |s|
  {
    var i := Find(s, Space);
    if i != -1 {
      var rest := Split(s[i + 1..]);
      JoinSplit(s[i + 1..]);
      var r := [s[..i]] + rest;
      assert Split(s) == r;
      assert r[1..] == rest;
      assert Join(r) == s[..i] + [Space] + Join(rest);
      CutAt(s, i);
    } else {
      assert Split(s) == [s];
    }
  }

  /** Splitting words joined with spaces gives back the words, when no word holds a space. */
  lemma {:induction false} SplitJoin(words: seq<string>)
    requires |words| >= 1
    requires forall w :: w in words ==> Space !in w
    ensures Split(Join(words)) == words
    decreases |words|
  {
    var w := words[0];
    assert w in words;
    if |words| > 1 {
      var tail := words[1..];
      assert forall v :: v in tail ==> v in words;
      SplitJoin(tail);
      SplitCons(w, Join(tail));
      assert words == [w] + tail;
    } else {
      assert Find(w, Space) == -1;
    }
  }

  lemma SplitCons(w: string, rest: string)
    requires Space !in w
    ensures Split(w + [Space] + rest) == [w] + Split(rest)
  {
    var s := w + [Space] + rest;
    FindAfterWord(w, rest);
    assert s[..|w|] == w && s[|w| + 1..] == rest;
  }

  lemma {:induction false} FindAfterWord(w: string, rest: string)
    requires Space !in w
    ensures Find(w + [Space] + rest, Space) == |w|
    decreases |w|
  {
    var s := w + [Space] + rest;
    if w != [] {
      assert s[1..] == w[1..] + [Space] + rest;
      FindAfterWord(w[1..], rest);
    }
  }

  /** One round of SplitIntoWords: the token before the first space moves from the text to the result. */
  lemma SplitStep(words: seq<string>, str: string)
    ensures var i := Find(str, Space);
      if i == -1 then words + Split(str) == words + [str]
      else words + Split(str) == (words + [str[..i]]) + Split(str[i + 1..])
  {
  }

  /**
   * SplitIntoWords: repeatedly cut the text at its first space. What the
   * tokens are is stated about Split: SplitCount, SplitNoSpace, JoinSplit.
   */
  method SplitIntoWords(text: string) returns (words: seq<string>)
    ensures words == Split(text)
  {
    var str := text;
    words := [];
    var space := Find(str, Space);
    while space != -1
      invariant space == Find(str, Space)
      invariant words + Split(str) == Split(text)
      decreases |str|
    {
      SplitStep(words, str);
      words := words + [str[..space]];
      str := str[space + 1..];
      space := Find(str, Space);
    }
    SplitStep(words, str);
    words := words + [str];
  }
}
