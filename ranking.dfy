/** Ranking of the current server: the relevance of a document for a query, the
    documents a query finds (`FindAllDocuments`, search_server.h:197-228), their order
    and the top five (`FindTopDocuments`, search_server.h:126-160). */
module Ranking {
  import opened Types
  import opened StringOrder
  import opened Parsing
  import opened InvertedIndex

  /** Every id in a posting has a record, so `documents_.at(id)` cannot throw. */
  ghost predicate PostingsKnown(ix: Index)
  {
    forall w, d :: w in ix.wordToDocumentFreqs && d in ix.wordToDocumentFreqs[w] ==> d in ix.documents
  }

  lemma ValidPostingsKnown(ix: Index, stopWords: set<string>)
    requires Valid(ix, stopWords)
    ensures PostingsKnown(ix)
  {
  }

  /** `d` is a known document and the filter of a `FindTopDocuments` call holds for it. */
  predicate Passes(ix: Index, d: int, pred: Predicate)
  {
    d in ix.documents && pred(d, ix.documents[d].status, ix.documents[d].rating)
  }

  /** `tf · idf` of word `w` for document `d`, zero when `d` has no posting for `w`. The
      idf is `idf(document count, number of postings of w)`. */
  function Contribution(ix: Index, w: string, d: int, idf: IdfFunction): real
  {
    if w in ix.wordToDocumentFreqs && d in ix.wordToDocumentFreqs[w] then
      TfIdf(ix.wordToDocumentFreqs[w][d], idf(|ix.documents|, |ix.wordToDocumentFreqs[w]|))
    else 0.0
  }

  /** The weight of one posting: term frequency times inverse document frequency. */
  function TfIdf(tf: real, inverseDocumentFreq: real): real
  {
    tf * inverseDocumentFreq
  }

  /** The relevance of `d`: the sum of the contributions of the plus words. */
  function Relevance(ix: Index, plusWords: seq<string>, d: int, idf: IdfFunction): real
  {
    if plusWords == [] then 0.0
    else
      Relevance(ix, plusWords[..|plusWords| - 1], d, idf) + Contribution(ix, plusWords[|plusWords| - 1], d, idf)
  }

  /** Some word of `words` has a posting for `d`. */
  predicate HasPosting(ix: Index, words: seq<string>, d: int)
  {
    exists w :: w in words && w in ix.wordToDocumentFreqs && d in ix.wordToDocumentFreqs[w]
  }

  /** The ids a query finds: known documents that pass the filter, have a posting for a
      plus word and none for a minus word. Under `PostingsKnown` a posted id is always
      known; the `d in ix.documents` conjunct is kept because it bounds the set and is
      what lets `Passes` and `Row` read the record of `d`. */
  function Candidates(ix: Index, query: Query, pred: Predicate): set<int>
  {
    set d | d in ix.documents && Passes(ix, d, pred)
      && HasPosting(ix, query.plusWords, d) && !HasPosting(ix, query.minusWords, d)
  }

  /** The result row of a found document: its id, relevance and stored rating. */
  function Row(ix: Index, d: int, plusWords: seq<string>, idf: IdfFunction): Document
    requires d in ix.documents
  {
    Document(d, Relevance(ix, plusWords, d, idf), ix.documents[d].rating)
  }

  /** One result row per id. */
  function Rows(ix: Index, ids: seq<int>, plusWords: seq<string>, idf: IdfFunction): seq<Document>
    requires forall d :: d in ids ==> d in ix.documents
  {
    if ids == [] then []
    else Rows(ix, ids[..|ids| - 1], plusWords, idf) + [Row(ix, ids[|ids| - 1], plusWords, idf)]
  }

  /** What `FindAllDocuments` returns: the found documents in ascending id order. */
  function MatchedDocuments(ix: Index, query: Query, pred: Predicate, idf: IdfFunction): seq<Document>
  {
    Rows(ix, Ascending(Candidates(ix, query, pred)), query.plusWords, idf)
  }

  // ---------------------------------------------------------------------------------
  // The map `document_to_relevance` while `FindAllDocuments` runs

  /** The relevance map once the bucket of plus word `w` has been visited, starting
      from `acc`: each document of the bucket that passes the filter gains `tf · idf`. */
  function AddPostings(acc: map<int, real>, ix: Index, w: string, pred: Predicate, idf: IdfFunction): map<int, real>
    requires w in ix.wordToDocumentFreqs
  {
    var bucket := ix.wordToDocumentFreqs[w];
    map d | d in acc.Keys + (set e | e in bucket && Passes(ix, e, pred)) ::
      (if d in acc then acc[d] else 0.0)
      + (if d in bucket && Passes(ix, d, pred) then Contribution(ix, w, d, idf) else 0.0)
  }

  /** The same map part way through the bucket: only the first `n` of its ids `ids` have
      been visited, with the bucket and the word's idf at hand. */
  function AddFirst(acc: map<int, real>, ix: Index, bucket: map<int, real>, inverseDocumentFreq: real,
                    ids: seq<int>, n: nat, pred: Predicate): map<int, real>
    requires n <= |ids|
  {
    if n == 0 then acc
    else
      var m := AddFirst(acc, ix, bucket, inverseDocumentFreq, ids, n - 1, pred);
      var d := ids[n - 1];
      if Passes(ix, d, pred) then
        m[d := (if d in m then m[d] else 0.0) + (if d in bucket then TfIdf(bucket[d], inverseDocumentFreq) else 0.0)]
      else m
  }

  /** The relevance map once the plus words `words` have been visited. */
  function Accumulate(ix: Index, words: seq<string>, pred: Predicate, idf: IdfFunction): map<int, real>
  {
    if words == [] then map[]
    else
      var acc := Accumulate(ix, words[..|words| - 1], pred, idf);
      var w := words[|words| - 1];
      if w in ix.wordToDocumentFreqs then AddPostings(acc, ix, w, pred, idf) else acc
  }

  /** The ids with a posting for one of the minus words `words`. */
  function Excluded(ix: Index, words: seq<string>): set<int>
  {
    set w, d | w in words && w in ix.wordToDocumentFreqs && d in ix.wordToDocumentFreqs[w] :: d
  }

  /** Visiting distinct ids adds the weight of each visited one that passes the filter
      once and leaves the other entries as they were. */
  lemma {:induction false} AddFirstAt(acc: map<int, real>, ix: Index, bucket: map<int, real>, inverseDocumentFreq: real,
                                      ids: seq<int>, n: nat, pred: Predicate, d: int)
    requires Increasing(ids) && n <= |ids|
    ensures var m := AddFirst(acc, ix, bucket, inverseDocumentFreq, ids, n, pred);
      var gains := d in ids[..n] && Passes(ix, d, pred);
      && (d in m <==> d in acc || gains)
      && (d in m ==> m[d] == (if d in acc then acc[d] else 0.0)
                            + (if gains && d in bucket then TfIdf(bucket[d], inverseDocumentFreq) else 0.0))
  {
    if n > 0 {
      var last := ids[n - 1];
      AddFirstAt(acc, ix, bucket, inverseDocumentFreq, ids, n - 1, pred, d);
      assert ids[..n] == ids[..n - 1] + [last];
      if d == last {
        assert d !in ids[..n - 1];
      } else {
        assert d in ids[..n] <==> d in ids[..n - 1];
      }
    }
  }

  /** Visiting the whole bucket in increasing id order gives `AddPostings`. */
  lemma AddFirstIsAddPostings(acc: map<int, real>, ix: Index, w: string, ids: seq<int>, pred: Predicate, idf: IdfFunction)
    requires w in ix.wordToDocumentFreqs
    requires Increasing(ids) && Enumerates(ids, ix.wordToDocumentFreqs[w].Keys)
    ensures var bucket := ix.wordToDocumentFreqs[w];
      AddFirst(acc, ix, bucket, idf(|ix.documents|, |bucket|), ids, |ids|, pred) == AddPostings(acc, ix, w, pred, idf)
  {
    var bucket := ix.wordToDocumentFreqs[w];
    var m := AddFirst(acc, ix, bucket, idf(|ix.documents|, |bucket|), ids, |ids|, pred);
    var m' := AddPostings(acc, ix, w, pred, idf);
    forall d ensures d in m <==> d in m' {
      AddFirstAtEnd(acc, ix, w, ids, pred, idf, d);
    }
    forall d | d in m ensures m[d] == m'[d] {
      AddFirstAtEnd(acc, ix, w, ids, pred, idf, d);
    }
    SameRelevance(m, m');
  }

  /** Two relevance maps with the same ids and the same values are equal. */
  lemma SameRelevance(m: map<int, real>, m': map<int, real>)
    requires forall d :: d in m <==> d in m'
    requires forall d :: d in m ==> m[d] == m'[d]
    ensures m == m'
  {
    assert forall d :: d in m.Keys <==> d in m'.Keys;
    assert m.Keys == m'.Keys;
    assert forall d :: d in m.Keys ==> m[d] == m'[d];
  }

  lemma AddFirstAtEnd(acc: map<int, real>, ix: Index, w: string, ids: seq<int>, pred: Predicate, idf: IdfFunction, d: int)
    requires w in ix.wordToDocumentFreqs
    requires Increasing(ids) && Enumerates(ids, ix.wordToDocumentFreqs[w].Keys)
    ensures var bucket := ix.wordToDocumentFreqs[w];
      var m := AddFirst(acc, ix, bucket, idf(|ix.documents|, |bucket|), ids, |ids|, pred);
      var m' := AddPostings(acc, ix, w, pred, idf);
      (d in m <==> d in m') && (d in m ==> m[d] == m'[d])
  {
    var bucket := ix.wordToDocumentFreqs[w];
    AddFirstAt(acc, ix, bucket, idf(|ix.documents|, |bucket|), ids, |ids|, pred, d);
    assert ids[..|ids|] == ids;
  }

  lemma HasPostingLast(ix: Index, words: seq<string>, d: int)
    requires words != []
    ensures var w := words[|words| - 1];
      HasPosting(ix, words, d) <==>
        HasPosting(ix, words[..|words| - 1], d) || (w in ix.wordToDocumentFreqs && d in ix.wordToDocumentFreqs[w])
  {
    var init := words[..|words| - 1];
    assert words == init + [words[|words| - 1]];
    assert forall v :: v in words <==> v in init || v == words[|words| - 1];
  }

  /** A document without a posting for any of the words has relevance zero. */
  lemma {:induction false} RelevanceWithoutPosting(ix: Index, words: seq<string>, d: int, idf: IdfFunction)
    requires !HasPosting(ix, words, d)
    ensures Relevance(ix, words, d, idf) == 0.0
  {
    if words != [] {
      HasPostingLast(ix, words, d);
      RelevanceWithoutPosting(ix, words[..|words| - 1], d, idf);
    }
  }

  /** The accumulated map holds exactly the documents that pass the filter and have a
      posting for a plus word, each with its relevance. */
  lemma {:induction false} AccumulateIsRelevance(ix: Index, words: seq<string>, pred: Predicate,
                                                 idf: IdfFunction, d: int)
    requires PostingsKnown(ix)
    ensures d in Accumulate(ix, words, pred, idf) <==>
      Passes(ix, d, pred) && HasPosting(ix, words, d)
    ensures d in Accumulate(ix, words, pred, idf) ==>
      Accumulate(ix, words, pred, idf)[d] == Relevance(ix, words, d, idf)
  {
    if words != [] {
      var init := words[..|words| - 1];
      var w := words[|words| - 1];
      var acc := Accumulate(ix, init, pred, idf);
      AccumulateIsRelevance(ix, init, pred, idf, d);
      HasPostingLast(ix, words, d);
      if w in ix.wordToDocumentFreqs {
        var posted := d in ix.wordToDocumentFreqs[w];
        if posted {
          assert d in ix.documents;
        }
        if d !in acc && posted && Passes(ix, d, pred) {
          RelevanceWithoutPosting(ix, init, d, idf);
        }
      }
    }
  }

  lemma ExcludedIsHasPosting(ix: Index, words: seq<string>, d: int)
    ensures d in Excluded(ix, words) <==> HasPosting(ix, words, d)
  {
    if HasPosting(ix, words, d) {
      var w :| w in words && w in ix.wordToDocumentFreqs && d in ix.wordToDocumentFreqs[w];
    }
  }

  lemma ExcludedStep(ix: Index, words: seq<string>, i: nat)
    requires i < |words|
    ensures Excluded(ix, words[..i + 1]) ==
      Excluded(ix, words[..i]) + (if words[i] in ix.wordToDocumentFreqs then ix.wordToDocumentFreqs[words[i]].Keys else {})
  {
    var before := words[..i];
    var after := words[..i + 1];
    assert after == before + [words[i]];
    assert after[..|after| - 1] == before;
    assert forall v :: v in after <==> v in before || v == words[i];
    forall d ensures d in Excluded(ix, after) <==>
      d in Excluded(ix, before) || (words[i] in ix.wordToDocumentFreqs && d in ix.wordToDocumentFreqs[words[i]])
    {
      ExcludedIsHasPosting(ix, after, d);
      ExcludedIsHasPosting(ix, before, d);
      HasPostingLast(ix, after, d);
    }
  }

  /** The relevance map after both loops has the candidates as keys, each mapped to its
      relevance. */
  lemma FinalMapIsCandidates(ix: Index, query: Query, pred: Predicate, idf: IdfFunction)
    requires PostingsKnown(ix)
    ensures var m := Accumulate(ix, query.plusWords, pred, idf) - Excluded(ix, query.minusWords);
      && m.Keys == Candidates(ix, query, pred)
      && forall d :: d in m ==> m[d] == Relevance(ix, query.plusWords, d, idf)
  {
    var acc := Accumulate(ix, query.plusWords, pred, idf);
    var m := acc - Excluded(ix, query.minusWords);
    forall d ensures d in m <==> d in Candidates(ix, query, pred) {
      AccumulateIsRelevance(ix, query.plusWords, pred, idf, d);
      ExcludedIsHasPosting(ix, query.minusWords, d);
    }
    forall d | d in m ensures m[d] == Relevance(ix, query.plusWords, d, idf) {
      AccumulateIsRelevance(ix, query.plusWords, pred, idf, d);
    }
  }

  /** The inner loop over the postings of one plus word: every document that passes the
      filter gains `tf · idf`. */
  method AddWordPostings(ix: Index, w: string, pred: Predicate, idf: IdfFunction, relevance: map<int, real>)
    returns (r: map<int, real>)
    requires PostingsKnown(ix) && w in ix.wordToDocumentFreqs
    ensures r == AddPostings(relevance, ix, w, pred, idf)
  {
    var postings := ix.wordToDocumentFreqs[w];
    var inverseDocumentFreq := idf(|ix.documents|, |postings|);
    var ids := SortedIds(postings.Keys);
    r := relevance;
    for k := 0 to |ids|
      invariant r == AddFirst(relevance, ix, postings, inverseDocumentFreq, ids, k, pred)
    {
      var id := ids[k];
      var data := ix.documents[id];
      if pred(id, data.status, data.rating) {
        r := r[id := (if id in r then r[id] else 0.0) + TfIdf(postings[id], inverseDocumentFreq)];
      }
    }
    AddFirstIsAddPostings(relevance, ix, w, ids, pred, idf);
  }

  /** The inner loop over the postings of one minus word: each of its documents is erased. */
  method EraseWordPostings(ix: Index, w: string, relevance: map<int, real>) returns (r: map<int, real>)
    requires w in ix.wordToDocumentFreqs
    ensures r == relevance - ix.wordToDocumentFreqs[w].Keys
  {
    var ids := SortedIds(ix.wordToDocumentFreqs[w].Keys);
    ghost var done: set<int> := {};
    r := relevance;
    for k := 0 to |ids|
      invariant r == relevance - done
      invariant forall x :: x in done <==> x in ids[..k]
    {
      EraseStep(relevance, done, ids[k]);
      assert ids[..k + 1] == ids[..k] + [ids[k]];
      r := r - {ids[k]};
      done := done + {ids[k]};
    }
    assert ids[..|ids|] == ids;
    assert forall x :: x in done <==> x in ix.wordToDocumentFreqs[w].Keys;
    assert done == ix.wordToDocumentFreqs[w].Keys;
  }

  lemma EraseStep(relevance: map<int, real>, done: set<int>, id: int)
    ensures (relevance - done) - {id} == relevance - (done + {id})
  {
  }

  /** Sequential `FindAllDocuments`: add `tf · idf` of every plus word to the documents
      that pass the filter, erase the documents of every minus word, and list the rest
      in ascending id order. */
  method FindAllDocuments(ix: Index, query: Query, pred: Predicate, idf: IdfFunction)
    returns (matched: seq<Document>)
    requires PostingsKnown(ix)
    ensures matched == MatchedDocuments(ix, query, pred, idf)
  {
    var plus := query.plusWords;
    var relevance: map<int, real> := map[];
    for i := 0 to |plus|
      invariant relevance == Accumulate(ix, plus[..i], pred, idf)
    {
      assert plus[..i + 1][..i] == plus[..i];
      if plus[i] in ix.wordToDocumentFreqs {
        relevance := AddWordPostings(ix, plus[i], pred, idf, relevance);
      }
    }
    assert plus[..|plus|] == plus;
    ghost var scored := relevance;
    var minus := query.minusWords;
    for i := 0 to |minus|
      invariant relevance == scored - Excluded(ix, minus[..i])
    {
      ExcludedStep(ix, minus, i);
      if minus[i] in ix.wordToDocumentFreqs {
        relevance := EraseWordPostings(ix, minus[i], relevance);
      }
    }
    assert minus[..|minus|] == minus;
    FinalMapIsCandidates(ix, query, pred, idf);
    matched := ListDocuments(ix, relevance, plus, idf);
  }

  /** The last loop of `FindAllDocuments`: one row per entry of the relevance map, in
      ascending id order, with the stored rating. */
  method ListDocuments(ix: Index, relevance: map<int, real>, plusWords: seq<string>, idf: IdfFunction)
    returns (rows: seq<Document>)
    requires relevance.Keys <= ix.documents.Keys
    requires forall d :: d in relevance ==> relevance[d] == Relevance(ix, plusWords, d, idf)
    ensures rows == Rows(ix, Ascending(relevance.Keys), plusWords, idf)
  {
    var ids := SortedIds(relevance.Keys);
    rows := [];
    for k := 0 to |ids|
      invariant rows == Rows(ix, ids[..k], plusWords, idf)
    {
      var id := ids[k];
      assert id in ids;
      assert ids[..k + 1][..k] == ids[..k];
      rows := rows + [Document(id, relevance[id], ix.documents[id].rating)];
    }
    assert ids[..|ids|] == ids;
    AscendingUnique(relevance.Keys, ids);
  }

  // ---------------------------------------------------------------------------------
  // Ranking order and the top five

  /** `a` ranks before `b`: higher relevance first, then higher rating. */
  predicate Before(a: Document, b: Document)
  {
    a.relevance > b.relevance || (a.relevance == b.relevance && a.rating > b.rating)
  }

  lemma BeforeIsStrictOrder(a: Document, b: Document, c: Document)
    ensures !Before(a, a)
    ensures Before(a, b) ==> !Before(b, a)
    ensures Before(a, b) && Before(b, c) ==> Before(a, c)
    ensures !Before(a, b) && !Before(b, a) && !Before(b, c) && !Before(c, b) ==> !Before(a, c) && !Before(c, a)
  {
  }

  /** No later document ranks before an earlier one. */
  predicate SortedByRank(s: seq<Document>)
  {
    forall i, j :: 0 <= i < j < |s| ==> !Before(s[j], s[i])
  }

  /** `x` goes in front of the first document it ranks before. */
  function InsertByRank(s: seq<Document>, x: Document): seq<Document>
  {
    if s == [] then [x]
    else if Before(x, s[0]) then [x] + s
    else [s[0]] + InsertByRank(s[1..], x)
  }

  /** The documents in rank order; documents of equal rank keep their order. */
  function SortByRank(s: seq<Document>): seq<Document>
  {
    if s == [] then []
    else InsertByRank(SortByRank(s[..|s| - 1]), s[|s| - 1])
  }

  lemma {:induction false} InsertByRankCount(s: seq<Document>, x: Document)
    ensures multiset(InsertByRank(s, x)) == multiset(s) + multiset{x}
  {
    if s != [] && !Before(x, s[0]) {
      InsertByRankCount(s[1..], x);
      assert s == [s[0]] + s[1..];
    }
  }

  lemma {:induction false} InsertByRankSorted(s: seq<Document>, x: Document)
    requires SortedByRank(s)
    ensures SortedByRank(InsertByRank(s, x))
  {
    if s != [] {
      if Before(x, s[0]) {
        forall j | 0 < j <= |s| ensures !Before(([x] + s)[j], x) {
          BeforeIsStrictOrder(s[j - 1], s[0], x);
          BeforeIsStrictOrder(s[j - 1], x, s[0]);
        }
      } else {
        var tail := s[1..];
        InsertByRankSorted(tail, x);
        InsertByRankCount(tail, x);
        var r := InsertByRank(tail, x);
        forall k | 0 <= k < |r| ensures !Before(r[k], s[0]) {
          assert r[k] in multiset(r);
          if r[k] != x {
            var j :| 0 <= j < |tail| && tail[j] == r[k];
            assert s[j + 1] == r[k];
          }
        }
      }
    }
  }

  lemma {:induction false} SortByRankSorted(s: seq<Document>)
    ensures SortedByRank(SortByRank(s))
    ensures multiset(SortByRank(s)) == multiset(s)
  {
    if s != [] {
      var init := s[..|s| - 1];
      SortByRankSorted(init);
      InsertByRankSorted(SortByRank(init), s[|s| - 1]);
      InsertByRankCount(SortByRank(init), s[|s| - 1]);
      assert s == init + [s[|s| - 1]];
    }
  }

  /** `resize(MAX_RESULT_DOCUMENT_COUNT)` when longer. */
  function Truncate(s: seq<Document>): (r: seq<Document>)
    ensures |r| == if |s| > MAX_RESULT_DOCUMENT_COUNT then MAX_RESULT_DOCUMENT_COUNT else |s|
    ensures r == s[..|r|]
  {
    if |s| > MAX_RESULT_DOCUMENT_COUNT then s[..MAX_RESULT_DOCUMENT_COUNT] else s
  }

  /** What `FindTopDocuments(raw_query, document_predicate)` returns: the query parsed
      with duplicates removed, its documents in rank order, at most five of them. */
  function TopDocuments(ix: Index, stopWords: set<string>, rawQuery: string, pred: Predicate,
                        idf: IdfFunction): Result<seq<Document>>
  {
    match QueryOf(rawQuery, stopWords, true)
    case Err(e) => Err(e)
    case Ok(query) => Ok(Truncate(SortByRank(MatchedDocuments(ix, query, pred, idf))))
  }

  /** The filter of the status overload. */
  function StatusIs(status: DocumentStatus): Predicate
  {
    (id: int, st: DocumentStatus, rating: int) => st == status
  }

  /** The overload without a filter keeps `Actual` documents. */
  function DefaultTopDocuments(ix: Index, stopWords: set<string>, rawQuery: string, idf: IdfFunction): Result<seq<Document>>
  {
    TopDocuments(ix, stopWords, rawQuery, StatusIs(Actual), idf)
  }

  // ---------------------------------------------------------------------------------
  // What the found documents are

  lemma {:induction false} RowsAt(ix: Index, ids: seq<int>, plusWords: seq<string>, idf: IdfFunction)
    requires forall d :: d in ids ==> d in ix.documents
    ensures |Rows(ix, ids, plusWords, idf)| == |ids|
    ensures forall k :: 0 <= k < |ids| ==> Rows(ix, ids, plusWords, idf)[k] == Row(ix, ids[k], plusWords, idf)
  {
    if ids != [] {
      var init := ids[..|ids| - 1];
      RowsAt(ix, init, plusWords, idf);
      assert forall k :: 0 <= k < |init| ==> init[k] == ids[k];
    }
  }

  /** `FindAllDocuments` lists one row per found document, with its relevance and
      stored rating, in ascending id order. */
  lemma MatchedDocumentsSpec(ix: Index, query: Query, pred: Predicate, idf: IdfFunction)
    ensures var m := MatchedDocuments(ix, query, pred, idf);
      && (forall i, j :: 0 <= i < j < |m| ==> m[i].id < m[j].id)
      && (forall doc :: doc in m <==> doc.id in Candidates(ix, query, pred) && doc == Row(ix, doc.id, query.plusWords, idf))
      && |m| == |Candidates(ix, query, pred)|
  {
    var ids := Ascending(Candidates(ix, query, pred));
    RowsAt(ix, ids, query.plusWords, idf);
    var m := MatchedDocuments(ix, query, pred, idf);
    forall doc ensures doc in m <==> doc.id in Candidates(ix, query, pred) && doc == Row(ix, doc.id, query.plusWords, idf) {
      if doc.id in Candidates(ix, query, pred) {
        var k :| 0 <= k < |ids| && ids[k] == doc.id;
        assert m[k] == Row(ix, doc.id, query.plusWords, idf);
      }
    }
  }

  /** A document is found iff it is known, passes the filter, has a posting for some
      plus word and none for any minus word. */
  lemma CandidatesSpec(ix: Index, query: Query, pred: Predicate, d: int)
    ensures d in Candidates(ix, query, pred) <==>
      && d in ix.documents
      && pred(d, ix.documents[d].status, ix.documents[d].rating)
      && (exists w :: w in query.plusWords && w in ix.wordToDocumentFreqs && d in ix.wordToDocumentFreqs[w])
      && !(exists w :: w in query.minusWords && w in ix.wordToDocumentFreqs && d in ix.wordToDocumentFreqs[w])
  {
  }

  /** Sorting and cutting keep at most five of the documents, in rank order. */
  lemma TruncatedSortSpec(matched: seq<Document>)
    ensures var r := Truncate(SortByRank(matched));
      && |r| <= MAX_RESULT_DOCUMENT_COUNT
      && |r| == (if |matched| > MAX_RESULT_DOCUMENT_COUNT then MAX_RESULT_DOCUMENT_COUNT else |matched|)
      && SortedByRank(r)
      && multiset(r) <= multiset(matched)
      && forall doc :: doc in r ==> doc in matched
  {
    var sorted := SortByRank(matched);
    SortByRankSorted(matched);
    assert |sorted| == |matched| by {
      assert |multiset(sorted)| == |multiset(matched)|;
    }
    var r := Truncate(sorted);
    assert sorted == r + sorted[|r|..];
    assert multiset(r) <= multiset(sorted);
    forall doc | doc in r ensures doc in matched {
      assert doc in multiset(sorted);
    }
  }

  /** No two entries share an id. */
  predicate DistinctIds(s: seq<Document>)
  {
    forall i, j :: 0 <= i < j < |s| ==> s[i].id != s[j].id
  }

  /** A list with increasing ids holds each document at most once. */
  lemma {:induction false} IncreasingIdsOnce(m: seq<Document>, x: Document)
    requires forall i, j :: 0 <= i < j < |m| ==> m[i].id < m[j].id
    ensures multiset(m)[x] <= 1
  {
    if m != [] {
      var rest := m[1..];
      assert m == [m[0]] + rest;
      IncreasingIdsOnce(rest, x);
      if m[0] == x {
        assert x !in rest by {
          forall k | 0 <= k < |rest| ensures rest[k] != x {
            assert rest[k] == m[k + 1];
          }
        }
      }
    }
  }

  /** A document at two positions of a list counts twice. */
  lemma CountsTwice(s: seq<Document>, i: nat, j: nat)
    requires i < j < |s| && s[i] == s[j]
    ensures multiset(s)[s[i]] >= 2
  {
    assert s == s[..i] + [s[i]] + s[i + 1..j] + [s[j]] + s[j + 1..];
  }

  /** Taking part of a list with increasing ids, in any order, repeats no id. */
  lemma SubMultisetDistinctIds(r: seq<Document>, m: seq<Document>)
    requires forall i, j :: 0 <= i < j < |m| ==> m[i].id < m[j].id
    requires multiset(r) <= multiset(m)
    ensures DistinctIds(r)
  {
    forall i, j | 0 <= i < j < |r| ensures r[i].id != r[j].id {
      if r[i].id == r[j].id {
        assert r[i] in multiset(m) && r[j] in multiset(m);
        var a :| 0 <= a < |m| && m[a] == r[i];
        var b :| 0 <= b < |m| && m[b] == r[j];
        assert a == b;
        CountsTwice(r, i, j);
        IncreasingIdsOnce(m, r[i]);
        assert false;
      }
    }
  }

  /** A document that sorting and cutting leave out ranks before none of those kept. */
  lemma TruncatedSortKeepsBest(matched: seq<Document>, x: Document)
    requires x in matched
    ensures var r := Truncate(SortByRank(matched));
      x in r || forall doc :: doc in r ==> !Before(x, doc)
  {
    var sorted := SortByRank(matched);
    SortByRankSorted(matched);
    assert x in multiset(sorted);
    var j :| 0 <= j < |sorted| && sorted[j] == x;
    var r := Truncate(sorted);
    if j >= |r| {
      forall doc | doc in r ensures !Before(x, doc) {
        var i :| 0 <= i < |r| && r[i] == doc;
      }
    } else {
      assert r[j] == x;
    }
  }

  /** `FindTopDocuments`: a malformed query fails with `InvalidQuery`; otherwise at
      most five found documents, in rank order, each with its relevance and stored
      rating. */
  lemma TopDocumentsSpec(ix: Index, stopWords: set<string>, rawQuery: string, pred: Predicate, idf: IdfFunction)
    ensures var r := TopDocuments(ix, stopWords, rawQuery, pred, idf);
      && (r.Err? <==> QueryOf(rawQuery, stopWords, true).Err?)
      && (r.Err? ==> r.error == InvalidQuery)
    ensures TopDocuments(ix, stopWords, rawQuery, pred, idf).Ok? ==>
      var r := TopDocuments(ix, stopWords, rawQuery, pred, idf).value;
      var query := QueryOf(rawQuery, stopWords, true).value;
      && |r| <= MAX_RESULT_DOCUMENT_COUNT
      && SortedByRank(r)
      && DistinctIds(r)
      && forall doc :: doc in r ==> doc.id in Candidates(ix, query, pred) && doc == Row(ix, doc.id, query.plusWords, idf)
  {
    if QueryOf(rawQuery, stopWords, true).Ok? {
      var query := QueryOf(rawQuery, stopWords, true).value;
      var matched := MatchedDocuments(ix, query, pred, idf);
      MatchedDocumentsSpec(ix, query, pred, idf);
      TruncatedSortSpec(matched);
      SubMultisetDistinctIds(Truncate(SortByRank(matched)), matched);
    }
  }

  /** Cutting to five keeps the best: a found document that is left out ranks before
      none of those returned, and nothing is cut when at most five are found. */
  lemma TopDocumentsKeepsBest(ix: Index, stopWords: set<string>, rawQuery: string, pred: Predicate,
                              idf: IdfFunction, d: int)
    requires TopDocuments(ix, stopWords, rawQuery, pred, idf).Ok?
    ensures var r := TopDocuments(ix, stopWords, rawQuery, pred, idf).value;
      var query := QueryOf(rawQuery, stopWords, true).value;
      var found := Candidates(ix, query, pred);
      && |r| == (if |found| > MAX_RESULT_DOCUMENT_COUNT then MAX_RESULT_DOCUMENT_COUNT else |found|)
      && (d in found ==> Row(ix, d, query.plusWords, idf) in r || forall doc :: doc in r ==> !Before(Row(ix, d, query.plusWords, idf), doc))
  {
    var query := QueryOf(rawQuery, stopWords, true).value;
    var matched := MatchedDocuments(ix, query, pred, idf);
    MatchedDocumentsSpec(ix, query, pred, idf);
    TruncatedSortSpec(matched);
    if d in Candidates(ix, query, pred) {
      TruncatedSortKeepsBest(matched, Row(ix, d, query.plusWords, idf));
    }
  }

  /** The status overload finds only documents with that status; the overload without
      a filter only `Actual` ones. */
  lemma StatusFilter(ix: Index, stopWords: set<string>, rawQuery: string, status: DocumentStatus, idf: IdfFunction)
    requires TopDocuments(ix, stopWords, rawQuery, StatusIs(status), idf).Ok?
    ensures forall doc :: doc in TopDocuments(ix, stopWords, rawQuery, StatusIs(status), idf).value ==>
      doc.id in ix.documents && ix.documents[doc.id].status == status
    ensures DefaultTopDocuments(ix, stopWords, rawQuery, idf).Ok? ==>
      forall doc :: doc in DefaultTopDocuments(ix, stopWords, rawQuery, idf).value ==>
        doc.id in ix.documents && ix.documents[doc.id].status == Actual
  {
    TopDocumentsSpec(ix, stopWords, rawQuery, StatusIs(status), idf);
    TopDocumentsSpec(ix, stopWords, rawQuery, StatusIs(Actual), idf);
  }

  /** A removed document is never found again. */
  lemma RemovedNeverFound(ix: Index, id: int, stopWords: set<string>, rawQuery: string, pred: Predicate, idf: IdfFunction)
    requires TopDocuments(InvertedIndex.Removed(ix, id), stopWords, rawQuery, pred, idf).Ok?
    ensures forall doc :: doc in TopDocuments(InvertedIndex.Removed(ix, id), stopWords, rawQuery, pred, idf).value ==> doc.id != id
  {
    TopDocumentsSpec(InvertedIndex.Removed(ix, id), stopWords, rawQuery, pred, idf);
  }

  // ---------------------------------------------------------------------------------
  // `FindTopDocuments` step by step

  /** The insertion point the scan finds is where `InsertByRank` puts `x`. */
  lemma {:induction false} InsertAt(s: seq<Document>, x: Document, j: nat)
    requires j <= |s|
    requires forall k :: 0 <= k < j ==> !Before(x, s[k])
    requires j < |s| ==> Before(x, s[j])
    ensures InsertByRank(s, x) == s[..j] + [x] + s[j..]
  {
    if j > 0 {
      InsertAt(s[1..], x, j - 1);
      assert s[1..][..j - 1] == s[1..j];
      assert s[..j] == [s[0]] + s[1..j];
      assert s[1..][j - 1..] == s[j..];
    }
  }

  /** Sorting the found documents by rank, one insertion at a time. */
  method SortDocuments(s: seq<Document>) returns (sorted: seq<Document>)
    ensures sorted == SortByRank(s)
  {
    sorted := [];
    for i := 0 to |s|
      invariant sorted == SortByRank(s[..i])
    {
      var x := s[i];
      var j := 0;
      while j < |sorted| && !Before(x, sorted[j])
        invariant 0 <= j <= |sorted|
        invariant forall k :: 0 <= k < j ==> !Before(x, sorted[k])
      {
        j := j + 1;
      }
      InsertAt(sorted, x, j);
      assert s[..i + 1][..i] == s[..i];
      sorted := sorted[..j] + [x] + sorted[j..];
    }
    assert s[..|s|] == s;
  }

  /** `FindTopDocuments(raw_query, document_predicate)`: parse with duplicates removed,
      find, sort by rank, keep the first five. */
  method FindTopDocuments(ix: Index, stopWords: set<string>, rawQuery: string, pred: Predicate, idf: IdfFunction)
    returns (r: Result<seq<Document>>)
    requires PostingsKnown(ix)
    ensures r == TopDocuments(ix, stopWords, rawQuery, pred, idf)
  {
    var query := ParseQuery(rawQuery, stopWords, true);
    if query.Err? {
      return Err(query.error);
    }
    var matched := FindAllDocuments(ix, query.value, pred, idf);
    var sorted := SortDocuments(matched);
    var top := sorted;
    if |sorted| > MAX_RESULT_DOCUMENT_COUNT {
      top := sorted[..MAX_RESULT_DOCUMENT_COUNT];
    }
    assert top == Truncate(sorted);
    r := Ok(top);
  }

  // ---------------------------------------------------------------------------------
  // The comparator as written

  /** The tolerance of the relevance comparison. */
  const EPS: real := 0.000001

  function Abs(x: real): real
  {
    if x < 0.0 then -x else x
  }

  /** The comparator passed to `sort`: higher relevance first, or, for relevances
      closer than `EPS`, higher rating first. */
  predicate CompareAsWritten(lhs: Document, rhs: Document)
  {
    lhs.relevance > rhs.relevance || (Abs(lhs.relevance - rhs.relevance) < EPS && lhs.rating > rhs.rating)
  }

  /** Two documents that each compare before the other: the comparator is not a strict
      weak order, which `sort` requires. */
  lemma CompareAsWrittenNotAsymmetric()
    ensures var a := Document(1, 0.0, 3);
      var b := Document(2, 0.0000005, 2);
      CompareAsWritten(a, b) && CompareAsWritten(b, a)
  {
  }

  /** The order the model sorts by is a strict weak order and agrees with the
      comparator as written whenever the relevances differ by at least `EPS`. */
  lemma BeforeAgreesAwayFromTies(a: Document, b: Document)
    requires Abs(a.relevance - b.relevance) >= EPS
    ensures Before(a, b) <==> CompareAsWritten(a, b)
  {
  }
}
