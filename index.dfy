/** The state of the current `SearchServer` as a value: its four maps and sets, the
    invariant that ties them together, and the effect of adding and removing a document
    (search_server.h:73-77, search_server.cpp:13-29 and 182-225). */
module InvertedIndex {
  import opened Types
  import opened StringProcessing
  import opened Parsing
  import opened Ratings
  import opened Frequencies

  /** `word_to_document_freqs_`, `documents_`, `document_ids_freqs_` and `document_ids_`. */
  datatype Index = Index(
    wordToDocumentFreqs: map<string, map<int, real>>,
    documents: map<int, DocumentData>,
    documentIdsFreqs: map<int, map<string, real>>,
    documentIds: set<int>)

  /** A freshly constructed server holds no document. */
  const Empty: Index := Index(map[], map[], map[], {})

  /** Every posting `(w, id, tf)` is recorded in the reverse map with the same `tf`, and
      every reverse entry has its posting. */
  ghost predicate Mirrored(ix: Index)
  {
    && (forall w, id :: w in ix.wordToDocumentFreqs && id in ix.wordToDocumentFreqs[w] ==>
          id in ix.documentIdsFreqs && w in ix.documentIdsFreqs[id]
          && ix.documentIdsFreqs[id][w] == ix.wordToDocumentFreqs[w][id])
    && (forall id, w :: id in ix.documentIdsFreqs && w in ix.documentIdsFreqs[id] ==>
          w in ix.wordToDocumentFreqs && id in ix.wordToDocumentFreqs[w])
  }

  /** The invariant the operations keep: the id set is the key set of the records, ids
      are non-negative, reverse entries belong to known documents and are never empty,
      postings and reverse map mirror each other, and the indexed words are valid and
      not stop words. */
  ghost predicate Valid(ix: Index, stopWords: set<string>)
  {
    && ix.documentIds == ix.documents.Keys
    && (forall id :: id in ix.documents ==> id >= 0)
    && ix.documentIdsFreqs.Keys <= ix.documents.Keys
    && (forall id :: id in ix.documentIdsFreqs ==> ix.documentIdsFreqs[id] != map[])
    && Mirrored(ix)
    && (forall w :: w in ix.wordToDocumentFreqs ==> w !in stopWords && IsValidWord(w))
  }

  lemma EmptyIsValid(stopWords: set<string>)
    ensures Valid(Empty, stopWords)
  {
  }

  /** The postings of `w`, empty when the word was never indexed. */
  function Bucket(p: map<string, map<int, real>>, w: string): map<int, real>
  {
    if w in p then p[w] else map[]
  }

  /** The postings after document `id`, absent from all of them, is indexed with the
      term frequencies `freqs`. */
  function WithDocument(p: map<string, map<int, real>>, id: int, freqs: map<string, real>)
    : map<string, map<int, real>>
  {
    map w | w in p.Keys + freqs.Keys :: if w in freqs then Bucket(p, w)[id := freqs[w]] else p[w]
  }

  /** The checks `AddDocument` makes before it changes anything: the id must be
      non-negative and new, and every word of the text must be valid. On success, the
      non-stop words of the text. */
  function AddCheck(ix: Index, stopWords: set<string>, id: int, text: string): (r: Result<seq<string>>)
    ensures r.Err? <==> id < 0 || id in ix.documents || AnyInvalid(Split(text))
    ensures r.Err? ==> r.error == if id < 0 || id in ix.documents then InvalidId else InvalidWord
    ensures r.Ok? ==> r.value == RemoveStopWords(Split(text), stopWords)
  {
    if id < 0 || id in ix.documents then Err(InvalidId) else WordsNoStop(Split(text), stopWords)
  }

  /** The index after a document that passed the checks is added: its term frequencies
      go into both maps, its record holds the average rating and the status, and its id
      joins the id set. A document without non-stop words gets no reverse entry. */
  function Added(ix: Index, id: int, words: seq<string>, status: DocumentStatus, ratings: seq<int>): Index
    requires |ratings| > 0
  {
    var freqs := TermFreqs(words);
    Index(
      WithDocument(ix.wordToDocumentFreqs, id, freqs),
      ix.documents[id := DocumentData(AverageRating(ratings), status)],
      if words == [] then ix.documentIdsFreqs else ix.documentIdsFreqs[id := freqs],
      ix.documentIds + {id})
  }

  /** `AddDocument`: the new index, or the error it throws with the index untouched. The
      ratings are averaged only on the success path, which divides by their number. */
  function AddDocument(ix: Index, stopWords: set<string>, id: int, text: string,
                       status: DocumentStatus, ratings: seq<int>): Result<Index>
    requires AddCheck(ix, stopWords, id, text).Err? || |ratings| > 0
  {
    match AddCheck(ix, stopWords, id, text)
    case Err(e) => Err(e)
    case Ok(words) => Ok(Added(ix, id, words, status, ratings))
  }

  /** Sequential `RemoveDocument`: `id` leaves every bucket (the buckets stay, possibly
      empty) and all three other containers. */
  function Removed(ix: Index, id: int): Index
  {
    Index(
      map w | w in ix.wordToDocumentFreqs :: ix.wordToDocumentFreqs[w] - {id},
      ix.documents - {id},
      ix.documentIdsFreqs - {id},
      ix.documentIds - {id})
  }

  /** Parallel `RemoveDocument`: `id` leaves only the buckets of the words of its reverse
      entry; `.at` throws `out_of_range` when there is no such entry. */
  function RemovedPar(ix: Index, id: int): (r: Result<Index>)
    ensures r.Err? <==> id !in ix.documentIdsFreqs
    ensures r.Err? ==> r.error == OutOfRange
  {
    if id !in ix.documentIdsFreqs then Err(OutOfRange)
    else
      var words := ix.documentIdsFreqs[id].Keys;
      Ok(Index(
        map w | w in ix.wordToDocumentFreqs ::
          if w in words then ix.wordToDocumentFreqs[w] - {id} else ix.wordToDocumentFreqs[w],
        ix.documents - {id},
        ix.documentIdsFreqs - {id},
        ix.documentIds - {id}))
  }

  /** `GetWordFrequencies`: the reverse entry of the document, or an empty map. */
  function WordFrequencies(ix: Index, id: int): map<string, real>
  {
    if id in ix.documentIdsFreqs then ix.documentIdsFreqs[id] else map[]
  }

  /** `GetDocumentCount`: the number of records. */
  function DocumentCount(ix: Index): nat
  {
    |ix.documents|
  }

  // ---------------------------------------------------------------------------------
  // Adding a document

  lemma FreshIdHasNoPostings(ix: Index, stopWords: set<string>, id: int)
    requires Valid(ix, stopWords) && id !in ix.documents
    ensures id !in ix.documentIdsFreqs
    ensures forall w :: w in ix.wordToDocumentFreqs ==> id !in ix.wordToDocumentFreqs[w]
  {
  }

  lemma WithDocumentAt(p: map<string, map<int, real>>, id: int, freqs: map<string, real>, w: string)
    ensures w in WithDocument(p, id, freqs) <==> w in p || w in freqs
    ensures w in freqs ==> WithDocument(p, id, freqs)[w] == Bucket(p, w)[id := freqs[w]]
    ensures w !in freqs && w in p ==> WithDocument(p, id, freqs)[w] == p[w]
  {
  }

  lemma TermFreqKeys(words: seq<string>)
    ensures forall w :: w in TermFreqs(words) <==> w in words
    ensures words != [] ==> TermFreqs(words) != map[]
  {
    forall w ensures w in TermFreqs(words) <==> w in words {
      if w in words { TermFreqInUnitInterval(words, w); }
    }
    if words != [] {
      assert words[0] in TermFreqs(words);
    }
  }

  /** The postings and the reverse map still mirror each other once a fresh document
      has been added to both with the same frequencies. */
  lemma AddedMirrored(ix: Index, id: int, words: seq<string>, status: DocumentStatus, ratings: seq<int>)
    requires |ratings| > 0
    requires Mirrored(ix)
    requires id !in ix.documentIdsFreqs
    ensures Mirrored(Added(ix, id, words, status, ratings))
  {
    var ix' := Added(ix, id, words, status, ratings);
    var freqs := TermFreqs(words);
    var p, p' := ix.wordToDocumentFreqs, ix'.wordToDocumentFreqs;
    var r, r' := ix.documentIdsFreqs, ix'.documentIdsFreqs;
    TermFreqKeys(words);
    forall w, d | w in p' && d in p'[w]
      ensures d in r' && w in r'[d] && r'[d][w] == p'[w][d]
    {
      WithDocumentAt(p, id, freqs, w);
      if d != id {
        assert w in p && d in p[w];
      }
    }
    forall d, w | d in r' && w in r'[d]
      ensures w in p' && d in p'[w]
    {
      WithDocumentAt(p, id, freqs, w);
    }
  }

  /** Words that may enter the index. */
  predicate Indexable(words: seq<string>, stopWords: set<string>)
  {
    forall w :: w in words ==> w !in stopWords && IsValidWord(w)
  }

  lemma AddedValid(ix: Index, stopWords: set<string>, id: int, words: seq<string>,
                   status: DocumentStatus, ratings: seq<int>)
    requires |ratings| > 0
    requires Valid(ix, stopWords)
    requires id >= 0 && id !in ix.documents
    requires Indexable(words, stopWords)
    ensures Valid(Added(ix, id, words, status, ratings), stopWords)
  {
    var ix' := Added(ix, id, words, status, ratings);
    var freqs := TermFreqs(words);
    FreshIdHasNoPostings(ix, stopWords, id);
    AddedMirrored(ix, id, words, status, ratings);
    TermFreqKeys(words);
    assert ix'.documentIdsFreqs.Keys <= ix'.documents.Keys;
    assert forall d :: d in ix'.documentIdsFreqs ==> ix'.documentIdsFreqs[d] != map[];
    forall w | w in ix'.wordToDocumentFreqs ensures w !in stopWords && IsValidWord(w) {
      WithDocumentAt(ix.wordToDocumentFreqs, id, freqs, w);
    }
  }

  lemma CheckedWordsIndexable(ix: Index, stopWords: set<string>, id: int, text: string)
    requires AddCheck(ix, stopWords, id, text).Ok?
    ensures Indexable(AddCheck(ix, stopWords, id, text).value, stopWords)
  {
    var pieces := Split(text);
    forall w | w in AddCheck(ix, stopWords, id, text).value
      ensures w !in stopWords && IsValidWord(w)
    {
      var i :| 0 <= i < |pieces| && pieces[i] == w;
    }
  }

  /** Adding a document keeps the invariant. */
  lemma AddKeepsValid(ix: Index, stopWords: set<string>, id: int, text: string,
                      status: DocumentStatus, ratings: seq<int>)
    requires Valid(ix, stopWords)
    requires AddCheck(ix, stopWords, id, text).Err? || |ratings| > 0
    ensures AddDocument(ix, stopWords, id, text, status, ratings).Ok? ==>
      Valid(AddDocument(ix, stopWords, id, text, status, ratings).value, stopWords)
  {
    if AddCheck(ix, stopWords, id, text).Ok? {
      CheckedWordsIndexable(ix, stopWords, id, text);
      AddedValid(ix, stopWords, id, AddCheck(ix, stopWords, id, text).value, status, ratings);
    }
  }

  lemma AddedFrequency(ix: Index, id: int, words: seq<string>, status: DocumentStatus,
                       ratings: seq<int>, w: string)
    requires |ratings| > 0 && w in words
    ensures var ix' := Added(ix, id, words, status, ratings);
      && w in ix'.wordToDocumentFreqs && id in ix'.wordToDocumentFreqs[w]
      && id in ix'.documentIdsFreqs && w in ix'.documentIdsFreqs[id]
      && ix'.wordToDocumentFreqs[w][id] == TermFreqs(words)[w]
      && ix'.documentIdsFreqs[id][w] == TermFreqs(words)[w]
  {
    TermFreqKeys(words);
    WithDocumentAt(ix.wordToDocumentFreqs, id, TermFreqs(words), w);
  }

  /** A new document's term frequencies are its occurrence counts over its number of
      non-stop words, stored identically in the postings and the reverse map. */
  lemma AddStoresFrequencies(ix: Index, stopWords: set<string>, id: int, text: string,
                             status: DocumentStatus, ratings: seq<int>, words: seq<string>, w: string)
    requires AddCheck(ix, stopWords, id, text) == Ok(words) && |ratings| > 0
    requires w in words
    ensures var ix' := AddDocument(ix, stopWords, id, text, status, ratings).value;
      && w in ix'.wordToDocumentFreqs && id in ix'.wordToDocumentFreqs[w]
      && id in ix'.documentIdsFreqs && w in ix'.documentIdsFreqs[id]
      && ix'.wordToDocumentFreqs[w][id] == ix'.documentIdsFreqs[id][w]
      && ix'.wordToDocumentFreqs[w][id] == Share(Count(words, w), |words|)
      && 0.0 < ix'.wordToDocumentFreqs[w][id] <= 1.0
  {
    AddedFrequency(ix, id, words, status, ratings, w);
    TermFreqInUnitInterval(words, w);
  }

  /** The record, the id set and the count after a successful addition. */
  lemma AddRecordsDocument(ix: Index, stopWords: set<string>, id: int, text: string,
                           status: DocumentStatus, ratings: seq<int>, words: seq<string>)
    requires Valid(ix, stopWords)
    requires AddCheck(ix, stopWords, id, text) == Ok(words) && |ratings| > 0
    ensures var ix' := AddDocument(ix, stopWords, id, text, status, ratings).value;
      && ix'.documents == ix.documents[id := DocumentData(AverageRating(ratings), status)]
      && ix'.documentIds == ix.documentIds + {id}
      && DocumentCount(ix') == DocumentCount(ix) + 1
      && WordFrequencies(ix', id) == TermFreqs(words)
  {
    var ix' := Added(ix, id, words, status, ratings);
    assert AddDocument(ix, stopWords, id, text, status, ratings) == Ok(ix');
    assert id !in ix.documents;
    FreshIdHasNoPostings(ix, stopWords, id);
    AddedRecord(ix, id, words, status, ratings);
  }

  /** The record, the count and the reverse entry of a fresh id once added. */
  lemma AddedRecord(ix: Index, id: int, words: seq<string>, status: DocumentStatus, ratings: seq<int>)
    requires |ratings| > 0 && id !in ix.documents && id !in ix.documentIdsFreqs
    ensures var ix' := Added(ix, id, words, status, ratings);
      && |ix'.documents| == |ix.documents| + 1
      && WordFrequencies(ix', id) == TermFreqs(words)
  {
    var ix' := Added(ix, id, words, status, ratings);
    var freqs := TermFreqs(words);
    assert ix'.documents == ix.documents[id := DocumentData(AverageRating(ratings), status)];
    if words == [] {
      assert freqs == map[];
      assert ix'.documentIdsFreqs == ix.documentIdsFreqs;
    } else {
      assert ix'.documentIdsFreqs == ix.documentIdsFreqs[id := freqs];
    }
  }

  /** Adding a document leaves the postings and frequencies of every other document as
      they were. */
  lemma AddKeepsOthers(ix: Index, stopWords: set<string>, id: int, text: string,
                       status: DocumentStatus, ratings: seq<int>, other: int)
    requires Valid(ix, stopWords)
    requires AddCheck(ix, stopWords, id, text).Ok? && |ratings| > 0
    requires other != id
    ensures var ix' := AddDocument(ix, stopWords, id, text, status, ratings).value;
      && WordFrequencies(ix', other) == WordFrequencies(ix, other)
      && (forall w :: w in ix.wordToDocumentFreqs && other in ix.wordToDocumentFreqs[w] ==>
            w in ix'.wordToDocumentFreqs && other in ix'.wordToDocumentFreqs[w]
            && ix'.wordToDocumentFreqs[w][other] == ix.wordToDocumentFreqs[w][other])
      && (forall w :: w in ix'.wordToDocumentFreqs && other in ix'.wordToDocumentFreqs[w] ==>
            w in ix.wordToDocumentFreqs && other in ix.wordToDocumentFreqs[w])
  {
  }

  /** A document whose words are all stop words is recorded without frequencies. */
  lemma AddWithoutWords(ix: Index, stopWords: set<string>, id: int, text: string,
                        status: DocumentStatus, ratings: seq<int>)
    requires Valid(ix, stopWords)
    requires AddCheck(ix, stopWords, id, text) == Ok([]) && |ratings| > 0
    ensures var ix' := AddDocument(ix, stopWords, id, text, status, ratings).value;
      ix'.wordToDocumentFreqs == ix.wordToDocumentFreqs
      && WordFrequencies(ix', id) == map[] && id in ix'.documents
  {
    FreshIdHasNoPostings(ix, stopWords, id);
    var p := ix.wordToDocumentFreqs;
    assert WithDocument(p, id, map[]) == p;
  }

  // ---------------------------------------------------------------------------------
  // Removing a document

  /** Removal keeps the invariant. */
  lemma RemoveKeepsValid(ix: Index, stopWords: set<string>, id: int)
    requires Valid(ix, stopWords)
    ensures Valid(Removed(ix, id), stopWords)
  {
    assert Mirrored(Removed(ix, id));
  }

  /** Afterwards `id` is in no bucket, has no frequencies and no record, and the count
      has dropped by one exactly when the document was there. */
  lemma RemoveClears(ix: Index, id: int)
    ensures var ix' := Removed(ix, id);
      && (forall w :: w in ix'.wordToDocumentFreqs ==> id !in ix'.wordToDocumentFreqs[w])
      && WordFrequencies(ix', id) == map[]
      && id !in ix'.documents && id !in ix'.documentIds
      && DocumentCount(ix') == if id in ix.documents then DocumentCount(ix) - 1 else DocumentCount(ix)
  {
  }

  /** Every other document keeps its postings, frequencies and record; no word leaves
      the postings map. */
  lemma RemoveKeepsOthers(ix: Index, id: int, other: int)
    requires other != id
    ensures var ix' := Removed(ix, id);
      && ix'.wordToDocumentFreqs.Keys == ix.wordToDocumentFreqs.Keys
      && (forall w :: w in ix.wordToDocumentFreqs ==>
            (other in ix'.wordToDocumentFreqs[w] <==> other in ix.wordToDocumentFreqs[w])
            && (other in ix.wordToDocumentFreqs[w] ==>
                  ix'.wordToDocumentFreqs[w][other] == ix.wordToDocumentFreqs[w][other]))
      && WordFrequencies(ix', other) == WordFrequencies(ix, other)
      && (other in ix'.documents <==> other in ix.documents)
      && (other in ix.documents ==> ix'.documents[other] == ix.documents[other])
  {
  }

  /** Removing an unknown id changes nothing. */
  lemma RemoveUnknownIsNoop(ix: Index, stopWords: set<string>, id: int)
    requires Valid(ix, stopWords) && id !in ix.documents
    ensures Removed(ix, id) == ix
  {
    var p := ix.wordToDocumentFreqs;
    var p' := Removed(ix, id).wordToDocumentFreqs;
    assert p' == p by {
      forall w | w in p ensures p'[w] == p[w] {
        assert id !in p[w];
      }
    }
    assert ix.documents - {id} == ix.documents;
    assert ix.documentIdsFreqs - {id} == ix.documentIdsFreqs;
  }

  /** A second removal of the same id changes nothing. */
  lemma RemoveIdempotent(ix: Index, id: int)
    ensures Removed(Removed(ix, id), id) == Removed(ix, id)
  {
    var r := Removed(ix, id);
    var p := r.wordToDocumentFreqs;
    var p' := Removed(r, id).wordToDocumentFreqs;
    assert p' == p by {
      forall w | w in p ensures p'[w] == p[w] {
        assert p[w] - {id} == p[w];
      }
    }
    assert r.documents - {id} == r.documents;
    assert r.documentIdsFreqs - {id} == r.documentIdsFreqs;
  }

  /** Under the invariant the parallel removal, when it does not throw, leaves the same
      index as the sequential one: the words of the reverse entry are exactly the
      buckets that hold the id. */
  lemma RemoveParAgrees(ix: Index, stopWords: set<string>, id: int)
    requires Valid(ix, stopWords)
    ensures RemovedPar(ix, id).Ok? ==> RemovedPar(ix, id).value == Removed(ix, id)
  {
    if id in ix.documentIdsFreqs {
      var p := RemovedPar(ix, id).value.wordToDocumentFreqs;
      var q := Removed(ix, id).wordToDocumentFreqs;
      forall w | w in p ensures p[w] == q[w] {
        if w !in ix.documentIdsFreqs[id] {
          assert id !in ix.wordToDocumentFreqs[w];
          assert ix.wordToDocumentFreqs[w] - {id} == ix.wordToDocumentFreqs[w];
        }
      }
      assert p == q;
    }
  }

  /** A known document whose words were all stop words has no reverse entry, so the
      parallel removal throws for it where the sequential one removes it. */
  lemma RemoveParThrowsForWordlessDocument(ix: Index, stopWords: set<string>, id: int,
                                           text: string, status: DocumentStatus, ratings: seq<int>)
    requires Valid(ix, stopWords)
    requires AddCheck(ix, stopWords, id, text) == Ok([]) && |ratings| > 0
    ensures var ix' := AddDocument(ix, stopWords, id, text, status, ratings).value;
      id in ix'.documents && RemovedPar(ix', id) == Err(OutOfRange)
  {
    FreshIdHasNoPostings(ix, stopWords, id);
  }

  // ---------------------------------------------------------------------------------
  // Queries on the state

  /** The frequencies of a document are exactly its postings. */
  lemma WordFrequenciesArePostings(ix: Index, stopWords: set<string>, id: int, w: string)
    requires Valid(ix, stopWords)
    ensures w in WordFrequencies(ix, id) <==>
      w in ix.wordToDocumentFreqs && id in ix.wordToDocumentFreqs[w]
    ensures w in WordFrequencies(ix, id) ==>
      WordFrequencies(ix, id)[w] == ix.wordToDocumentFreqs[w][id]
  {
  }

  /** The count of records is the size of the id set. */
  lemma DocumentCountIsIdCount(ix: Index, stopWords: set<string>)
    requires Valid(ix, stopWords)
    ensures DocumentCount(ix) == |ix.documentIds|
  {
  }

  // ---------------------------------------------------------------------------------
  // Ascending iteration over ids (`begin()`/`end()` of the `std::set<int>`)

  /** An element of a non-empty set. */
  lemma Element<T>(s: set<T>) returns (x: T)
    requires s != {}
    ensures x in s
  {
    x :| x in s;
  }

  predicate IsMinimum(m: int, s: set<int>)
  {
    m in s && forall y :: y in s ==> m <= y
  }

  lemma {:induction false} MinimumExists(s: set<int>)
    requires s != {}
    ensures exists m :: IsMinimum(m, s)
    decreases |s|
  {
    var x := Element(s);
    if !IsMinimum(x, s) {
      var y :| y in s && y < x;
      var rest := s - {x};
      assert y in rest;
      MinimumExists(rest);
      var m :| IsMinimum(m, rest);
      forall z | z in s ensures m <= z {
        if z != x { assert z in rest; }
      }
      assert IsMinimum(m, s);
    }
  }

  /** The smallest element of a non-empty set. */
  function Minimum(s: set<int>): (m: int)
    requires s != {}
    ensures IsMinimum(m, s)
  {
    MinimumExists(s);
    var m :| IsMinimum(m, s);
    m
  }

  /** Ids listed in strictly increasing order, as a `std::set<int>` or a
      `std::map<int, …>` iterates them. */
  predicate Increasing(ids: seq<int>)
  {
    forall i, j :: 0 <= i < j < |ids| ==> ids[i] < ids[j]
  }

  /** `ids` lists exactly the elements of `s`. */
  ghost predicate Enumerates(ids: seq<int>, s: set<int>)
  {
    forall x :: x in ids <==> x in s
  }

  /** The elements of `s` in increasing order. */
  function Ascending(s: set<int>): (r: seq<int>)
    ensures Increasing(r)
    ensures Enumerates(r, s)
    ensures |r| == |s|
    decreases |s|
  {
    if s == {} then []
    else
      var m := Minimum(s);
      var tail := Ascending(s - {m});
      assert forall k :: 0 <= k < |tail| ==> m < tail[k] by {
        forall k | 0 <= k < |tail| ensures m < tail[k] {
          assert tail[k] in s - {m};
        }
      }
      [m] + tail
  }

  /** Any increasing listing of `s` is `Ascending(s)`. */
  lemma {:induction false} AscendingUnique(s: set<int>, ids: seq<int>)
    requires Increasing(ids) && Enumerates(ids, s)
    ensures ids == Ascending(s)
    decreases |s|
  {
    if ids != [] {
      assert ids[0] in ids;
    }
    if s != {} {
      var x := Element(s);
      assert ids != [];
      var m := Minimum(s);
      assert IsMinimum(ids[0], s) by {
        forall y | y in s ensures ids[0] <= y {
          var j :| 0 <= j < |ids| && ids[j] == y;
        }
      }
      var rest := ids[1..];
      assert forall y :: y in rest <==> y in s - {m} by {
        forall y ensures y in rest <==> y in s - {m} {
          assert y in ids <==> y == ids[0] || y in rest;
        }
      }
      AscendingUnique(s - {m}, rest);
      assert ids[0] == m;
      assert ids == [m] + rest;
      assert Ascending(s) == [m] + Ascending(s - {m});
    }
  }

  /** The ids of `s` handed out in increasing order, as an ordered container iterates. */
  method SortedIds(s: set<int>) returns (ids: seq<int>)
    ensures Increasing(ids)
    ensures Enumerates(ids, s)
  {
    var todo := s;
    ids := [];
    while todo != {}
      invariant Increasing(ids)
      invariant forall x :: x in s <==> x in ids || x in todo
      invariant forall x, y :: x in ids && y in todo ==> x < y
      decreases |todo|
    {
      var m := Minimum(todo);
      assert Increasing(ids + [m]) by {
        forall i, j | 0 <= i < j < |ids| + 1 ensures (ids + [m])[i] < (ids + [m])[j] {
          if j == |ids| {
            assert ids[i] in ids;
          }
        }
      }
      ids := ids + [m];
      todo := todo - {m};
    }
  }
}
