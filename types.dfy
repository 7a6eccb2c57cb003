/** Entities shared by every component of the search server: document status and
    records, the errors the server raises, and a small result wrapper standing for
    the C++ exceptions. */
module Types {

  /** Number of results FindTopDocuments keeps after sorting. */
  const MAX_RESULT_DOCUMENT_COUNT: nat := 5

  datatype DocumentStatus = Actual | Irrelevant | Banned | Removed

  /** One search hit: the document id, its TF-IDF relevance and its stored rating. */
  datatype Document = Document(id: int, relevance: real, rating: int)

  /** What the server stores per document besides its words. */
  datatype DocumentData = DocumentData(rating: int, status: DocumentStatus)

  /** The exceptions of the source. `InvalidId`, `InvalidWord`, `InvalidQuery` and
      `InvalidStopWord` are the `std::invalid_argument` throws; `OutOfRange` is the
      `std::out_of_range` thrown by `std::map::at` on a missing key. `Terminated` is
      `std::terminate`, which ends the program when an exception leaves a function
      run by a parallel standard algorithm (`std::execution::par`). */
  datatype Error = InvalidId | InvalidWord | InvalidQuery | InvalidStopWord | OutOfRange | Terminated

  datatype Result<+T> = Ok(value: T) | Err(error: Error)

  datatype Outcome = Pass | Fail(error: Error)

  /** A document predicate `(id, status, rating) -> bool`, as taken by FindTopDocuments. */
  type Predicate = (int, DocumentStatus, int) -> bool

  /** The inverse document frequency as a function of the number of documents and the
      number of documents containing the word. The source computes `ln(n / df)` in
      floating point; the model keeps it abstract and takes it as a parameter. */
  type IdfFunction = (nat, nat) -> real
}
