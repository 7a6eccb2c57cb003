/** The current `SearchServer` as an object (search_server.h:21-124,
    search_server.cpp:5-44 and 174-225): four fields that the operations update in
    place, tied to the value model of `InvertedIndex` and to the ranking and matching
    of `Ranking` and `Matching`. */
module Server {
  import opened Types
  import opened StringProcessing
  import opened Parsing
  import opened Frequencies
  import opened Ratings
  import opened InvertedIndex
  import Ranking
  import Matching

  // ---------------------------------------------------------------------------------
  // The steps of the indexing loop of `AddDocument`

  /** The entry of a word after one more `+= inv`, created at zero when absent, as
      `operator[]` does. */
  function Bumped<K>(m: map<K, real>, k: K, inv: real): map<K, real>
  {
    m[k := (if k in m then m[k] else 0.0) + inv]
  }

  /** One `word_to_document_freqs_[word][document_id] += inv_word_count` for a document
      that had no posting before: the postings stay those of its frequencies so far. */
  lemma PostingsStep(p: map<string, map<int, real>>, postings: map<string, map<int, real>>,
                     id: int, freqs: map<string, real>, w: string, inv: real)
    requires forall x :: x in p ==> id !in p[x]
    requires postings == WithDocument(p, id, freqs)
    ensures postings[w := Bumped(Bucket(postings, w), id, inv)] == WithDocument(p, id, Bumped(freqs, w, inv))
  {
    var lhs := postings[w := Bumped(Bucket(postings, w), id, inv)];
    var rhs := WithDocument(p, id, Bumped(freqs, w, inv));
    forall x ensures x in lhs <==> x in rhs
    ensures x in lhs ==> lhs[x] == rhs[x] {
      PostingsStepAt(p, postings, id, freqs, w, inv, x);
    }
    assert lhs == rhs;
  }

  lemma PostingsStepAt(p: map<string, map<int, real>>, postings: map<string, map<int, real>>,
                       id: int, freqs: map<string, real>, w: string, inv: real, x: string)
    requires forall x :: x in p ==> id !in p[x]
    requires postings == WithDocument(p, id, freqs)
    ensures var lhs := postings[w := Bumped(Bucket(postings, w), id, inv)];
      var rhs := WithDocument(p, id, Bumped(freqs, w, inv));
      (x in lhs <==> x in rhs) && (x in lhs ==> lhs[x] == rhs[x])
  {
    WithDocumentAt(p, id, freqs, x);
    WithDocumentAt(p, id, Bumped(freqs, w, inv), x);
  }

  /** One more word: its frequency so far grows by `inv`. */
  lemma FreqsStep(words: seq<string>, i: nat, inv: real)
    requires i < |words|
    ensures Bumped(Accumulated(words[..i], inv), words[i], inv) == Accumulated(words[..i + 1], inv)
  {
    assert words[..i + 1] == words[..i] + [words[i]];
    AccumulatedStep(words[..i], words[i], inv);
  }

  /** One `document_ids_freqs_[document_id][word] += inv_word_count`: the reverse entry
      of the document, created by its first word, is its frequencies so far. */
  lemma ReverseStep(r: map<int, map<string, real>>, reverse: map<int, map<string, real>>,
                    id: int, freqs: map<string, real>, w: string, inv: real, first: bool)
    requires id !in r
    requires reverse == if first then r else r[id := freqs]
    requires first ==> freqs == map[]
    ensures reverse[id := Bumped(if id in reverse then reverse[id] else map[], w, inv)]
      == r[id := Bumped(freqs, w, inv)]
  {
  }

  /** The indexing loop of `AddDocument` for a document `id` that has no posting yet:
      every word adds `1 / |words|` to its entry in the postings and in the reverse
      map, creating entries as `operator[]` does. */
  method IndexWords(p: map<string, map<int, real>>, r: map<int, map<string, real>>, id: int, words: seq<string>)
    returns (postings: map<string, map<int, real>>, reverse: map<int, map<string, real>>)
    requires forall x :: x in p ==> id !in p[x]
    requires id !in r
    ensures postings == WithDocument(p, id, TermFreqs(words))
    ensures reverse == if words == [] then r else r[id := TermFreqs(words)]
  {
    postings, reverse := p, r;
    if words == [] {
      assert WithDocument(p, id, map[]) == p;
      return;
    }
    var inv := 1.0 / (|words| as real);
    ghost var freqs: map<string, real> := map[];
    assert WithDocument(p, id, freqs) == p;
    for i := 0 to |words|
      invariant freqs == Accumulated(words[..i], inv)
      invariant postings == WithDocument(p, id, freqs)
      invariant reverse == if i == 0 then r else r[id := freqs]
      invariant i == 0 ==> freqs == map[]
    {
      var word := words[i];
      FreqsStep(words, i, inv);
      PostingsStep(p, postings, id, freqs, word, inv);
      ReverseStep(r, reverse, id, freqs, word, inv, i == 0);
      postings := postings[word := Bumped(Bucket(postings, word), id, inv)];
      reverse := reverse[id := Bumped(if id in reverse then reverse[id] else map[], word, inv)];
      freqs := Bumped(freqs, word, inv);
    }
    assert words[..|words|] == words;
  }

  /** The loop of sequential `RemoveDocument`: `id` leaves every bucket. */
  method EraseEverywhere(p: map<string, map<int, real>>, id: int) returns (postings: map<string, map<int, real>>)
    ensures postings == map w | w in p :: p[w] - {id}
  {
    postings := p;
    var todo := p.Keys;
    while todo != {}
      invariant postings.Keys == p.Keys && todo <= p.Keys
      invariant forall w :: w in p ==> postings[w] == if w in todo then p[w] else p[w] - {id}
      decreases |todo|
    {
      ghost var some := Element(todo);
      var w :| w in todo;
      postings := postings[w := postings[w] - {id}];
      todo := todo - {w};
    }
  }

  /** The loop of parallel `RemoveDocument`: `id` leaves the buckets of `words` that
      exist. */
  method EraseFromWords(p: map<string, map<int, real>>, words: set<string>, id: int)
    returns (postings: map<string, map<int, real>>)
    ensures postings == map w | w in p :: if w in words then p[w] - {id} else p[w]
  {
    postings := p;
    var todo := words;
    while todo != {}
      invariant postings.Keys == p.Keys && todo <= words
      invariant forall w :: w in p ==>
        postings[w] == if w in words && w !in todo then p[w] - {id} else p[w]
      decreases |todo|
    {
      ghost var some := Element(todo);
      var w :| w in todo;
      if w in postings {
        postings := postings[w := postings[w] - {id}];
      }
      todo := todo - {w};
    }
  }

  // ---------------------------------------------------------------------------------
  // The server

  class SearchServer {
    /** `stop_words_`: fixed at construction. */
    const stopWords: set<string>
    /** `word_to_document_freqs_`: word -> (id -> term frequency). */
    var wordToDocumentFreqs: map<string, map<int, real>>
    /** `documents_`: id -> (rating, status). */
    var documents: map<int, DocumentData>
    /** `document_ids_freqs_`: id -> (word -> term frequency). */
    var documentIdsFreqs: map<int, map<string, real>>
    /** `document_ids_`. */
    var documentIds: set<int>

    /** The fields as one value. */
    function State(): Index
      reads this
    {
      Index(wordToDocumentFreqs, documents, documentIdsFreqs, documentIds)
    }

    ghost predicate Valid()
      reads this
    {
      InvertedIndex.Valid(State(), stopWords)
    }

    /** A server with an already checked stop-word set and no document. */
    constructor (stopWords: set<string>)
      ensures this.stopWords == stopWords
      ensures State() == Empty
      ensures Valid()
    {
      this.stopWords := stopWords;
      wordToDocumentFreqs := map[];
      documents := map[];
      documentIdsFreqs := map[];
      documentIds := {};
    }

    /** `SearchServer(stop_words)`: keeps the non-empty words, and throws
        `invalid_argument` when one of them holds a control character. */
    static method Create(words: seq<string>) returns (r: Result<SearchServer>)
      ensures r.Err? <==> MakeStopWords(words).Err?
      ensures r.Err? ==> r.error == InvalidStopWord
      ensures r.Ok? ==>
        && fresh(r.value) && r.value.Valid() && r.value.State() == Empty
        && r.value.stopWords == MakeStopWords(words).value
    {
      var kept := MakeStopWords(words);
      if kept.Err? {
        return Err(kept.error);
      }
      var server := new SearchServer(kept.value);
      r := Ok(server);
    }

    /** `SearchServer(stop_words_text)`: the stop words are the pieces of the text. */
    static method CreateFromText(text: string) returns (r: Result<SearchServer>)
      ensures r.Err? <==> MakeStopWords(Split(text)).Err?
      ensures r.Err? ==> r.error == InvalidStopWord
      ensures r.Ok? ==>
        && fresh(r.value) && r.value.Valid() && r.value.State() == Empty
        && r.value.stopWords == MakeStopWords(Split(text)).value
    {
      var pieces := SplitIntoWords(text);
      r := Create(pieces);
    }

    /** `AddDocument`: the id checks and the word checks come first, so a failing call
        changes nothing; then every non-stop word adds `1 / count` to its entry in both
        maps, and the record and the id are stored. */
    method AddDocument(id: int, text: string, status: DocumentStatus, ratings: seq<int>)
      returns (outcome: Outcome)
      requires Valid()
      requires AddCheck(State(), stopWords, id, text).Err? || |ratings| > 0
      modifies this
      ensures Valid()
      ensures var r := InvertedIndex.AddDocument(old(State()), stopWords, id, text, status, ratings);
        && (r.Err? ==> outcome == Fail(r.error) && State() == old(State()))
        && (r.Ok? ==> outcome == Pass && State() == r.value)
    {
      if id < 0 || id in documents {
        return Fail(InvalidId);
      }
      var checked := SplitIntoWordsNoStop(text, stopWords);
      if checked.Err? {
        return Fail(checked.error);
      }
      var words := checked.value;
      ghost var ix := State();
      ghost var added := Added(ix, id, words, status, ratings);
      assert InvertedIndex.AddDocument(ix, stopWords, id, text, status, ratings) == Ok(added);
      AddKeepsValid(ix, stopWords, id, text, status, ratings);
      FreshIdHasNoPostings(ix, stopWords, id);
      var postings, reverse := IndexWords(wordToDocumentFreqs, documentIdsFreqs, id, words);
      wordToDocumentFreqs := postings;
      documentIdsFreqs := reverse;
      documents := documents[id := DocumentData(AverageRating(ratings), status)];
      documentIds := documentIds + {id};
      assert State() == added;
      outcome := Pass;
    }

    /** `RemoveDocument(document_id)` and its sequential-policy overload: `id` is erased
        from every bucket, then from the other three containers. */
    method RemoveDocument(id: int)
      requires Valid()
      modifies this
      ensures Valid()
      ensures State() == InvertedIndex.Removed(old(State()), id)
    {
      RemoveKeepsValid(State(), stopWords, id);
      var postings := EraseEverywhere(wordToDocumentFreqs, id);
      wordToDocumentFreqs := postings;
      documentIdsFreqs := documentIdsFreqs - {id};
      documents := documents - {id};
      documentIds := documentIds - {id};
    }

    /** `RemoveDocument(par, document_id)`, run sequentially: `id` is erased only from
        the buckets of the words of its reverse entry, and `.at` throws `out_of_range`,
        changing nothing, when there is no such entry. */
    method RemoveDocumentPar(id: int) returns (outcome: Outcome)
      requires Valid()
      modifies this
      ensures Valid()
      ensures var r := RemovedPar(old(State()), id);
        && (r.Err? ==> outcome == Fail(r.error) && State() == old(State()))
        && (r.Ok? ==> outcome == Pass && State() == r.value)
    {
      if id !in documentIdsFreqs {
        return Fail(OutOfRange);
      }
      RemoveParAgrees(State(), stopWords, id);
      RemoveKeepsValid(State(), stopWords, id);
      var postings := EraseFromWords(wordToDocumentFreqs, documentIdsFreqs[id].Keys, id);
      wordToDocumentFreqs := postings;
      documentIdsFreqs := documentIdsFreqs - {id};
      documents := documents - {id};
      documentIds := documentIds - {id};
      outcome := Pass;
    }

    /** `begin()`/`end()`: the ids of the stored documents in increasing order. */
    method Ids() returns (ids: seq<int>)
      requires Valid()
      ensures Increasing(ids)
      ensures forall id :: id in ids <==> id in documents
      ensures ids == Ascending(documentIds)
    {
      ids := SortedIds(documentIds);
      AscendingUnique(documentIds, ids);
    }

    /** `GetWordFrequencies(document_id)`: the reverse entry, or an empty map for a
        document without one (unknown, or made only of stop words). */
    function GetWordFrequencies(id: int): (freqs: map<string, real>)
      requires Valid()
      reads this
      ensures forall w :: w in freqs <==> w in wordToDocumentFreqs && id in wordToDocumentFreqs[w]
      ensures forall w :: w in freqs ==> freqs[w] == wordToDocumentFreqs[w][id]
      ensures id !in documents ==> freqs == map[]
    {
      if id in documentIdsFreqs then documentIdsFreqs[id] else map[]
    }

    /** `GetDocumentCount()`: the number of stored documents. */
    function GetDocumentCount(): (n: nat)
      requires Valid()
      reads this
      ensures n == |documentIds|
    {
      |documents|
    }

    /** `FindTopDocuments(raw_query, document_predicate)` and its policy overloads. */
    method FindTopDocuments(rawQuery: string, pred: Predicate, idf: IdfFunction)
      returns (r: Result<seq<Document>>)
      requires Valid()
      ensures r == Ranking.TopDocuments(State(), stopWords, rawQuery, pred, idf)
    {
      Ranking.ValidPostingsKnown(State(), stopWords);
      r := Ranking.FindTopDocuments(State(), stopWords, rawQuery, pred, idf);
    }

    /** `FindTopDocuments(raw_query, status)`: the filter keeps the given status. */
    method FindTopDocumentsWithStatus(rawQuery: string, status: DocumentStatus, idf: IdfFunction)
      returns (r: Result<seq<Document>>)
      requires Valid()
      ensures r == Ranking.TopDocuments(State(), stopWords, rawQuery, Ranking.StatusIs(status), idf)
    {
      r := FindTopDocuments(rawQuery, Ranking.StatusIs(status), idf);
    }

    /** `FindTopDocuments(raw_query)`: the filter keeps `Actual` documents. */
    method FindActualTopDocuments(rawQuery: string, idf: IdfFunction)
      returns (r: Result<seq<Document>>)
      requires Valid()
      ensures r == Ranking.DefaultTopDocuments(State(), stopWords, rawQuery, idf)
    {
      r := FindTopDocumentsWithStatus(rawQuery, Actual, idf);
    }

    /** `MatchDocument(raw_query, document_id)` and its sequential-policy overload. */
    method MatchDocument(rawQuery: string, id: int) returns (r: Result<Matching.MatchResult>)
      ensures r == Matching.MatchDocumentOf(State(), stopWords, rawQuery, id)
    {
      r := Matching.MatchDocument(State(), stopWords, rawQuery, id);
    }

    /** `MatchDocument(par, raw_query, document_id)`, run sequentially. */
    method MatchDocumentPar(rawQuery: string, id: int) returns (r: Result<Matching.MatchResult>)
      ensures r == Matching.MatchDocumentParOf(State(), stopWords, rawQuery, id)
    {
      r := Matching.MatchDocumentPar(State(), stopWords, rawQuery, id);
    }
  }

  /** A server built from stop words accepts a document made only of stop words, which
      then has no frequencies and is invisible to the parallel removal. */
  lemma StopWordDocument(ix: Index, stopWords: set<string>, id: int, status: DocumentStatus, ratings: seq<int>)
    requires Valid(ix, stopWords) && id >= 0 && id !in ix.documents && |ratings| > 0
    requires "in" in stopWords
    ensures var r := InvertedIndex.AddDocument(ix, stopWords, id, "in", status, ratings);
      && r.Ok? && id in r.value.documents && WordFrequencies(r.value, id) == map[]
      && RemovedPar(r.value, id) == Err(OutOfRange)
  {
    assert Split("in") == ["in"];
    assert AddCheck(ix, stopWords, id, "in") == Ok([]);
    RemoveParThrowsForWordlessDocument(ix, stopWords, id, "in", status, ratings);
    AddWithoutWords(ix, stopWords, id, "in", status, ratings);
  }
}
