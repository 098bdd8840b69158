// The values the search engine stores and exchanges.
module SearchTypes {

  /** DocumentStatus: a label the caller attaches to a document. */
  datatype DocumentStatus = Actual | Irrelevant | Banned | Removed

  /** What the engine keeps per document id (SearchServer::DocumentData). */
  datatype DocumentData = DocumentData(rating: int, status: DocumentStatus)

  /** One parsed query token: the word, whether it was prefixed by '-', whether it is a stop word. */
  datatype QueryWord = QueryWord(data: string, isMinus: bool, isStop: bool)

  /**
   * A parsed query. Each std::set<string> is modelled by its iteration
   * order: a strictly increasing sequence (OrderedStrings.StrictlySorted).
   */
  datatype Query = Query(plusWords: seq<string>, minusWords: seq<string>)

  /** The engine's exceptions, one constructor per distinct throw. */
  datatype Error =
    | InvalidStopWords              // invalid_argument: a stop word holds a control character
    | InvalidDocumentId(id: int)    // invalid_argument: negative or already used id
    | InvalidWord(word: string)     // invalid_argument: a document word holds a control character
    | EmptyQueryWord                // invalid_argument: an empty query token
    | InvalidQueryWord(text: string) // invalid_argument: bare "-", "--...", or a control character
    | DocumentNotFound(id: int)     // out_of_range: documents_.at on an unknown id
    | IndexOutOfRange(index: int)   // out_of_range: document_ids_.at past the end

  /** word_to_document_freqs_: word to (document id to term frequency). */
  type Index = map<string, map<int, real>>

  /** The caller's filter on (document id, status, rating). */
  type DocumentPredicate = (int, DocumentStatus, int) -> bool
}
