# SearchServer in Dafny

A model of the `SearchServer` search engine in `SearchList/SearchServer.h`, with proofs about it. The engine:

- splits text into words at every space;
- keeps a set of stop words fixed at construction;
- builds an inverted index from each word to the documents holding it, with the word's term frequency (TF) in each document;
- stores each document's average rating and status, and remembers the order in which ids were added;
- answers queries made of plus words and `-`minus words. It scores every stored document the caller's predicate accepts by TF-IDF and drops any document a minus word holds. It sorts the matches by relevance, breaking near-ties by rating, and returns at most five.
- `MatchDocument` explains a match. It lists the query's plus words the document holds, or none when a minus word holds it.

The same header also holds `Stack`/`SortedStack` and `FindNearestElement`, which are modelled too.

How the model is built:

- The class is `Server.SearchServer`. Its fields are the source's four members: `stopWords` (a constant), the index `wordToDocumentFreqs`, `documents` and `documentIds`.
- Every method is proved against a specification function in the modules below it:
  - `Tokenizer.Split` for tokenizing;
  - `Words.WordsNoStop` for stop-word filtering;
  - `QueryParsing.ParseTokens` for query parsing;
  - `Indexing.AddPostings` for what indexing stores;
  - `Scoring.Relevances` and `Scoring.MatchedDocuments` for what a query finds;
  - `Ranking.TopDocuments` for sorting and truncation.
- The class invariant `Server.ValidState` says:
  - stop words are valid;
  - every indexed word is valid, is no stop word and has at least one posting, and every posting is a stored document;
  - ids are non-negative, and each stored id is listed exactly once.
- Exceptions become `Result`/`Outcome` values, one `Error` constructor per distinct `throw`. A failing `AddDocument` changes nothing.
- A `std::set<string>` is the strictly increasing sequence its iterators visit, ordered by `OrderedStrings.Less`, the lexicographic order of `std::string`.
- Iteration over a `std::map<int, …>` picks any pending key when the order cannot matter (`ScoreWord`, `EraseMinusWords`). It takes the least pending key where the order is observable (`ListByIncreasingId`).
- `std::sort` with the engine's comparator is an insertion sort over an `array` that uses the same comparator.
- `log` is a parameter `ln: real -> real`, and `double` is modelled by exact `real`.

Two behaviours of the code worth knowing:

- `ParseQuery` throws on an empty token rather than skipping it. An empty query, or one with a double space, therefore fails, and the model follows the code. The error is `EmptyQueryWord` unless an earlier token is already invalid: `"-  x"` fails on `"-"` with `InvalidQueryWord`, because the first bad token decides (`Server.EarlierInvalidTokenWins`).
- Document text is split the same way. The empty word can therefore enter the index when a document has doubled, leading or trailing spaces.

## Model

| member | source | states |
|---|---|---|
| Tokenizer.Find | SearchList/SearchServer.h:45 | `find(' ')` gives the first index of the character, or npos (-1) exactly when the character is absent |
| Tokenizer.SplitIntoWords | SearchList/SearchServer.h:41-56 | the cut-at-first-space loop returns exactly `Split(text)` |
| Tokenizer.SplitStep | SearchList/SearchServer.h:44-53 | one loop round moves the text before the first space into the result, and the result plus the tokens of the rest is unchanged |
| Tokenizer.SplitCount | SearchList/SearchServer.h:41-56 | there is exactly one more token than there are spaces in the text |
| Tokenizer.SplitNoSpace | SearchList/SearchServer.h:41-56 | no token contains a space |
| Tokenizer.JoinSplit | SearchList/SearchServer.h:41-56 | joining the tokens with single spaces gives back the text (round trip) |
| Tokenizer.SplitJoin | SearchList/SearchServer.h:41-56 | splitting space-free words joined by single spaces gives back the words (the other round trip) |
| OrderedStrings.LessTransitive | SearchList/SearchServer.h:261-262 | the string order a `std::set<string>` uses is transitive |
| OrderedStrings.LessTotal | SearchList/SearchServer.h:261-262 | two different strings are ordered one way or the other |
| OrderedStrings.Insert | SearchList/SearchServer.h:271-274 | `set::insert` keeps the set strictly ordered, and its elements are the old ones plus the new one |
| OrderedStrings.SortedUnique | SearchList/SearchServer.h:261-262 | two sets with the same elements iterate identically, so a set is determined by its elements |
| Words.IsValidWord | SearchList/SearchServer.h:206-211 | a word is valid iff none of its characters has a code from 0 to 31 |
| Words.MakeUniqueNonEmptyStrings | SearchList/SearchServer.h:80-89 | the result holds exactly the non-empty strings of the container |
| Words.WordsNoStopFails | SearchList/SearchServer.h:213-224 | filtering fails iff some token is invalid |
| Words.WordsNoStopFirstError | SearchList/SearchServer.h:213-224 | a failure names the first invalid token, and every token before it is valid |
| Words.WordsNoStopCounts | SearchList/SearchServer.h:213-224 | on success each non-stop word keeps its number of occurrences, and stop words occur zero times |
| Words.WordsNoStopCorrect | SearchList/SearchServer.h:213-224 | combines the three: fails iff some token is invalid, and then names the first one; otherwise it keeps the counts of non-stop words and drops stop words |
| Words.WordsNoStopKept | SearchList/SearchServer.h:213-224 | every word that is kept is valid and is not a stop word |
| QueryParsing.ParseQueryWord | SearchList/SearchServer.h:243-258 | a success is a well-formed word whose rendering (with `-` for a minus word) is the text, and it records whether the word is a stop word; an empty text fails with the empty-word error, and any other failure with the invalid-word error |
| QueryParsing.ParseQueryWordOfRender | SearchList/SearchServer.h:243-258 | every well-formed word parses back from its rendering (the inverse direction) |
| QueryParsing.AddQueryWord | SearchList/SearchServer.h:269-276 | adding a word keeps both word sets strictly ordered |
| QueryParsing.ParseTokens | SearchList/SearchServer.h:265-279 | a parsed query has both word sets in set order |
| QueryParsing.ParseFromPrefix | SearchList/SearchServer.h:265-279 | parsing the first i tokens and then the rest is the same as parsing all of them |
| QueryParsing.ParseTokensFailurePersists | SearchList/SearchServer.h:265-279 | once a prefix of the tokens fails, the whole query fails with that error |
| QueryParsing.ParseTokensSucceeds | SearchList/SearchServer.h:265-279 | a query parses iff every one of its tokens parses |
| QueryParsing.ParseTokensFirstError | SearchList/SearchServer.h:265-279 | a failing query reports the error of its first bad token |
| QueryParsing.ParseTokensWords | SearchList/SearchServer.h:265-279 | on success, w is a plus word iff it occurs as an unsigned non-stop token, and a minus word iff it occurs as `-w` and is no stop word |
| QueryParsing.ParseTokensCorrect | SearchList/SearchServer.h:265-279 | combines the three statements about parsing a whole query |
| Indexing.TruncatingDiv | SearchList/SearchServer.h:234 | C++ `int / int` truncates toward zero: bounds on the quotient for either sign of the dividend |
| Indexing.SumBounds | SearchList/SearchServer.h:230-233 | the sum of ratings lies between n times the smallest and n times the largest |
| Indexing.AverageRatingBounds | SearchList/SearchServer.h:226-235 | the average rating lies between the smallest and the largest rating |
| Indexing.AverageRatingTruncatesTowardZero | SearchList/SearchServer.h:226-235 | [-3, -4] averages to -3 and [3, 4] to 3 (truncation, not flooring), and no ratings give 0 |
| Indexing.AddPostingsEffect | SearchList/SearchServer.h:119-124 | a new document gets one posting per distinct kept word, worth that word's term frequency; every other document's postings are unchanged |
| Indexing.TermFrequenciesSumToOne | SearchList/SearchServer.h:121-124 | a document's term frequencies over its distinct kept words add up to 1 |
| Indexing.AddSharesKeys | SearchList/SearchServer.h:122-124 | the loop creates an index entry for each kept word and removes none |
| Indexing.AddSharesUntouched | SearchList/SearchServer.h:122-124 | the loop leaves the postings of other words as they were |
| Indexing.AddSharesValues | SearchList/SearchServer.h:122-124 | each kept word's posting for the new id is the share times its number of occurrences |
| Indexing.AddSharesEffect | SearchList/SearchServer.h:122-124 | combines the three statements about the `+= inv_word_count` loop |
| Indexing.ShareStep | SearchList/SearchServer.h:123 | one `+=` raises the count under the new id by one share, creating missing entries |
| Indexing.AddSharesIsAddPostings | SearchList/SearchServer.h:121-124 | with share 1/n the loop yields exactly the term-frequency postings; with no kept words the index is unchanged |
| Indexing.AddPostingsWellFormed | SearchList/SearchServer.h:115-127 | adding a fresh document with valid non-stop words keeps the index well formed |
| Indexing.AddWordSharesCorrect | SearchList/SearchServer.h:119-124 | AddDocument's loop over a fresh id gives the promised postings and keeps the index well formed |
| Ranking.BeforeAsymmetric | SearchList/SearchServer.h:135-142 | the comparator never puts two documents each before the other |
| Ranking.BeforeIncomparabilityNotTransitive | SearchList/SearchServer.h:135-142 | the comparator's 1e-6 tolerance makes "neither goes first" non-transitive, so it is not a strict weak ordering |
| Ranking.InsertBackCounts | SearchList/SearchServer.h:135-142 | one insertion pass adds exactly the new document (as a multiset) |
| Ranking.InsertBackOrdered | SearchList/SearchServer.h:135-142 | an insertion pass creates no neighbour that the comparator would put first |
| Ranking.SortDocumentsCounts | SearchList/SearchServer.h:135-142 | sorting yields a permutation of the matches |
| Ranking.SortDocumentsOrdered | SearchList/SearchServer.h:135-142 | after sorting, no document is followed by one the comparator puts before it |
| Ranking.SortDocumentsCorrect | SearchList/SearchServer.h:135-142 | combines the two: sorting yields a permutation with no adjacent inversion |
| Ranking.TopDocumentsCorrect | SearchList/SearchServer.h:135-145 | returns min(n, 5) results drawn from the matches, all of them when n ≤ 5, with no adjacent inversion |
| Ranking.SortInPlace | SearchList/SearchServer.h:135-142 | sorting the array in place leaves the sorted sequence of its old contents |
| Ranking.InsertInPlace | SearchList/SearchServer.h:135-142 | one in-place pass inserts a[i] into the sorted prefix and leaves the suffix alone |
| Ranking.SortAndResize | SearchList/SearchServer.h:135-145 | sort, then resize to at most `MAX_RESULT_DOCUMENT_COUNT`, yields `TopDocuments` of the matches |
| Scoring.IdfArgumentAtLeastOne | SearchList/SearchServer.h:282-284 | when every posting names a stored document, the argument `log` receives is at least 1; it is exactly 1 iff every stored document holds the word |
| Scoring.AscendingIdsCorrect | SearchList/SearchServer.h:312 | a map's keys are visited once each, in increasing order |
| Scoring.AscendingIdsFirst | SearchList/SearchServer.h:312 | the smallest key comes first, then the remaining keys in order |
| Scoring.AscendingIdsTake | SearchList/SearchServer.h:312 | visiting the least pending key appends it to the keys visited so far |
| Scoring.ToDocuments | SearchList/SearchServer.h:311-314 | the i-th result is the i-th id with its relevance and stored rating |
| Scoring.ToDocumentsSnoc | SearchList/SearchServer.h:313 | listing one more id appends its Document |
| Scoring.MatchedDocumentsCorrect | SearchList/SearchServer.h:311-314 | FindAllDocuments returns exactly one Document per entry of the relevance map, ordered by increasing id, with the stored rating |
| Scoring.PlusRelevancesStep | SearchList/SearchServer.h:289-300 | one plus word adds tf × idf to every accepted document it holds, and adds such a document to the map if it is missing |
| Scoring.PlusScoreUnmentioned | SearchList/SearchServer.h:289-300 | a document that no plus word holds scores 0 |
| Scoring.UnmentionedStep | SearchList/SearchServer.h:302-309 | one minus word erases every document it holds and leaves the rest unchanged |
| Scoring.MentionsAppend | SearchList/SearchServer.h:302-309 | a document is mentioned by p + [w] iff it is mentioned by p or held by w |
| Scoring.RelevancesInTwoPasses | SearchList/SearchServer.h:288-309 | scoring the plus words and then erasing the minus words' documents gives the relevance map |
| Scoring.RelevantIffMatched | SearchList/SearchServer.h:286-316 | a document is scored iff it is stored, passes the predicate and MatchDocument lists some word for it |
| Scoring.TopDocumentsQualify | SearchList/SearchServer.h:129-148 | every result is stored, passes the predicate, holds a plus word and no minus word, and carries its relevance and rating; at most 5 results, and all matches when there are few enough |
| Scoring.HitsOfMembers | SearchList/SearchServer.h:172-179 | a word is listed iff it is a plus word whose postings hold the document |
| Scoring.HitsOfSorted | SearchList/SearchServer.h:172-179 | the list keeps the set's order |
| Scoring.HitsOfEmpty | SearchList/SearchServer.h:172-179 | nothing is listed iff no plus word holds the document |
| Scoring.HitsOfCorrect | SearchList/SearchServer.h:172-179 | combines the three statements about MatchDocument's first loop |
| Scoring.MatchedWordsCorrect | SearchList/SearchServer.h:168-190 | a word is listed iff no minus word holds the document and the word is a plus word that holds it; the list is in ascending order |
| Server.AccumulateStep | SearchList/SearchServer.h:294-299 | visiting one posting keeps the relevance loop's invariant |
| Server.AddDocumentKeepsValid | SearchList/SearchServer.h:125-126 | storing a fresh non-negative id together with a well-formed index keeps the engine's invariant and grows the store by one |
| Server.EarlierInvalidTokenWins | SearchList/SearchServer.h:265-268 | `"-  x"` splits into `["-", "", "x"]` and fails with the invalid-word error for `"-"`, not the empty-word error: the first bad token decides |
| Server.AppendFreshId | SearchList/SearchServer.h:126 | appending a fresh id keeps the id list duplicate-free and in step with the store |
| Server.ValidStatePostings | SearchList/SearchServer.h:193-200 | in a valid state every word has a posting, and postings name only stored documents |
| Server.SearchServer.constructor | SearchList/SearchServer.h:100-107 | the engine starts empty with the given valid stop words |
| Server.SearchServer.FromWords | SearchList/SearchServer.h:100-107 | succeeds iff every stop word is valid, and then keeps exactly the non-empty ones; otherwise fails with invalid_argument |
| Server.SearchServer.FromText | SearchList/SearchServer.h:109-113 | the same, for the tokens of the text |
| Server.SearchServer.SplitIntoWordsNoStop | SearchList/SearchServer.h:213-224 | the loop yields `WordsNoStop(Split(text))` |
| Server.SearchServer.ComputeAverageRating | SearchList/SearchServer.h:226-235 | the loop yields `AverageRating` (bounds and truncation proved about it) |
| Server.SearchServer.AddDocument | SearchList/SearchServer.h:115-127 | fails on a negative or used id, then on an invalid word, changing nothing; otherwise adds the TF postings, stores rating and status, appends the id, and keeps the invariant |
| Server.SearchServer.AddWordShares | SearchList/SearchServer.h:121-124 | the `+=` loop yields `AddShares` and touches no other field |
| Server.SearchServer.ParseQuery | SearchList/SearchServer.h:265-279 | the loop yields `ParseTokens(Split(text))` |
| Server.SearchServer.FindAllDocuments | SearchList/SearchServer.h:286-316 | returns `MatchedDocuments` of the relevance map for the query and predicate |
| Server.SearchServer.ScorePlusWords | SearchList/SearchServer.h:289-300 | the plus-word loop yields `PlusRelevances` |
| Server.SearchServer.ScoreWord | SearchList/SearchServer.h:293-299 | exactly the accepted documents the word holds gain tf × idf; the rest are unchanged |
| Server.SearchServer.EraseMinusWords | SearchList/SearchServer.h:302-309 | the erase loop leaves exactly the entries no minus word holds |
| Server.SearchServer.ListByIncreasingId | SearchList/SearchServer.h:311-314 | walking the keys in increasing order yields `MatchedDocuments` |
| Server.SearchServer.FindTopDocuments | SearchList/SearchServer.h:129-148 | fails iff the query does not parse; otherwise at most 5 results, each a stored document the predicate accepts, with its stored rating |
| Server.SearchServer.FindTopDocumentsByStatus | SearchList/SearchServer.h:150-154 | every result has the requested status |
| Server.SearchServer.FindActualTopDocuments | SearchList/SearchServer.h:156-158 | every result has status ACTUAL |
| Server.SearchServer.GetDocumentCount | SearchList/SearchServer.h:160-162 | the number of stored documents equals the number of ids added |
| Server.SearchServer.GetDocumentId | SearchList/SearchServer.h:164-166 | returns the id added index-th iff 0 ≤ index < count, which is a stored id; otherwise out_of_range |
| Server.SearchServer.MatchDocument | SearchList/SearchServer.h:168-190 | the parse error first; then `MatchedWords` and the status for a stored id, or out_of_range for an unknown one |
| Server.SearchServer.CollectPlusHits | SearchList/SearchServer.h:172-179 | the first loop yields `HitsOf` the plus words |
| Server.SearchServer.ClearOnMinusHit | SearchList/SearchServer.h:180-188 | the list is emptied iff some minus word holds the document |
| Stacks.Stack.constructor | SearchList/SearchServer.h:516 | a new stack is empty: size 0 |
| Stacks.Stack.Push | SearchList/SearchServer.h:491-493 | the element goes on top and nothing else changes; afterwards `Peek` returns it, `Size` has grown by one and the stack is not empty |
| Stacks.Stack.Pop | SearchList/SearchServer.h:494-496 | only the top element is removed; `Size` shrinks by one, the stack is empty iff it held one element, and otherwise `Peek` returns the element that was below the old top |
| Stacks.SortedStack.constructor | SearchList/SearchServer.h:556 | a new sorted stack is empty and sorted |
| Stacks.SortedStack.Push | SearchList/SearchServer.h:522-536 | the recursive pop/push leaves `InsertSorted` of the old contents, keeps the stack sorted (`Valid`), grows `Size` by one, and leaves a top no larger than the element |
| Stacks.SortedStack.Pop | SearchList/SearchServer.h:537-539 | only the top element is removed; the stack stays sorted, `Size` shrinks by one, and the removed top was at most every remaining element |
| Stacks.SortedStack.Peek | SearchList/SearchServer.h:540-545 | on a sorted stack, returns an element that is at most every element: the minimum |
| Stacks.InsertSortedTop | SearchList/SearchServer.h:522-536 | a push onto a sorted stack keeps it sorted, makes it one longer, and leaves a top no larger than the pushed element |
| Stacks.TopIsLeastAll | SearchList/SearchServer.h:540-545 | on a non-increasing stack the top is at most every element |
| Stacks.InsertSortedCounts | SearchList/SearchServer.h:522-536 | a push adds exactly the element (length and multiset) |
| Stacks.InsertSortedOrdered | SearchList/SearchServer.h:522-536 | a push keeps the stack non-increasing from bottom to top, so the top is the smallest |
| Stacks.TopIsLeast | SearchList/SearchServer.h:540-545 | on a non-increasing stack every element is at least the top |
| Stacks.PushesSorted | SearchList/SearchServer.h:522-536 | any sequence of pushes leaves a non-increasing stack holding exactly the pushed values |
| Nearest.LowerBound | SearchList/SearchServer.h:463 | `lower_bound`: every element before the position is < numb, and every element from it on is ≥ numb |
| Nearest.UpperBound | SearchList/SearchServer.h:462 | `upper_bound`: every element before the position is ≤ numb, and every element from it on is > numb |
| Nearest.BoundsOrdered | SearchList/SearchServer.h:462-463 | lower_bound never comes after upper_bound |
| Nearest.FindNearestElementAsWritten | SearchList/SearchServer.h:457-477 | returns end() iff the set is empty |
| Nearest.AsWrittenIsClampedLowerBound | SearchList/SearchServer.h:457-477 | the code as written returns lower_bound, or the last element when that is end(); so the element just below numb is never considered, unless every element is below numb |
| Nearest.AsWrittenMissesNearerPredecessor | SearchList/SearchServer.h:457-477 | for {1, 10} and numb 2 the code returns 10, although 1 is nearer |
| Nearest.FindNearestElement | SearchList/SearchServer.h:457-477 | corrected version: returns end() iff the set is empty |
| Nearest.FindNearestElementCorrect | SearchList/SearchServer.h:457-477 | the corrected version returns an element of least distance to numb, the smaller one on a tie |

## Left out

- Console I/O: `ReadLine`, `ReadLineWithNumber`, `operator<<`, `PrintDocument`, `PrintMatchDocumentResult`, `PrintRange`, and `Stack::Print`/`SortedStack::Print` only print.
- The wrapper functions that catch exceptions and print them (`AddDocument`, `FindTopDocuments` and `MatchDocument` outside the class) only print.
- `Paginator` and `Paginate` are outside the engine.
- `RequestQueue` is commented out in the source.
- `Framework.h`, `ProcessQueries.h` and `main.cpp` are not part of this model; neither is `logtime.h`.
- `log` and `double`: the logarithm is a parameter `ln`, and relevances, term frequencies and IDF are exact reals. Floating-point rounding is not modelled, including whether two relevances fall within the 1e-6 tolerance.
- Integer widths are not modelled. `int` ids, ratings and the rating sum are unbounded, so overflow of `rating_sum` in `ComputeAverageRating` is not modelled. The same goes for the `int` conversions of sizes in `GetDocumentCount` and `GetDocumentId`, and for `uint64_t` in `Size`.
- Server.SearchServer.FindTopDocuments: the comparator is not a strict weak ordering (`Ranking.BeforeIncomparabilityNotTransitive`). Calling `std::sort` with such a comparator is undefined behaviour under the C++ standard ([alg.sorting]), so the source promises no order and no outcome for every input. The model sorts by insertion with the same comparator instead.
- Ranking.SortInPlace: the permutation and no-adjacent-inversion results (`SortDocumentsCorrect`) hold for the model's insertion sort. They say something about `std::sort` only for inputs on which `Before` is a strict weak ordering, for example when no two relevances lie within 1e-6 of each other without being equal.
- Server.SearchServer.AddDocument: with no kept words the source computes `1.0 / 0`, an infinity that the empty loop never uses. The model's share is 0 in that case. No posting is added either way.
- Server.SearchServer.ScoreWord: the order in which a `std::map` visits postings does not affect the result, so the model visits them in any order. `ListByIncreasingId` does visit the keys in increasing order.
- The non-const `Peek` returns a mutable reference. Writing through that reference is not modelled; both `Peek`s return the value.
- Stacks.Stack: `Stack<Type>` and `SortedStack<Type>` are modelled for `Type = int` only.
- Stacks.Stack.Pop: popping or peeking an empty stack is undefined behaviour in C++, so `Pop` and `Peek` require a non-empty stack.
- Stacks.SortedStack: the C++ `elements_` is private, while the Dafny field is visible. So every `SortedStack` operation requires `Valid()`, the sortedness the private field guarantees in C++, and `Push`, `Pop` and the constructor re-establish it.
- Tokenizer.SplitIntoWords: its contract is `Split(text)`. What the tokens are is proved about `Split` by `SplitCount`, `SplitNoSpace`, `JoinSplit` and `SplitJoin`.

## Findings

| source | as written | input that shows it | evidently intended | confidence | as-written member | corrected member |
|---|---|---|---|---|---|---|
| SearchList/SearchServer.h:457-477 | both candidates are `lower_bound` and `upper_bound`, which are never below numb (unless clamped to the last element), so the nearest element below numb is never compared | the set {1, 10} with numb 2 returns 10, but 1 is nearer | return the element nearest to numb (the smaller one on a tie) by comparing the last element below numb with `lower_bound` | high, not executed | Nearest.AsWrittenMissesNearerPredecessor | Nearest.FindNearestElementCorrect |
