/** `MatchDocument` of the current server, sequential and parallel
    (search_server.cpp:46-96): the plus words of a query that a document contains, or
    none when it contains a minus word, with the document's status. */
module Matching {
  import opened Types
  import opened StringOrder
  import opened Parsing
  import opened InvertedIndex
  import opened Ranking

  /** The words a document matches and its status. */
  datatype MatchResult = MatchResult(words: seq<string>, status: DocumentStatus)

  /** Every word has a postings bucket, so `word_to_document_freqs_.at(word)` cannot throw. */
  predicate AllIndexed(ix: Index, words: seq<string>)
  {
    forall w :: w in words ==> w in ix.wordToDocumentFreqs
  }

  /** `any_of` over the minus words: stops at the first word whose bucket holds `id`;
      a word without a bucket reached before that throws `out_of_range`. */
  function MinusHit(ix: Index, words: seq<string>, id: int): (r: Result<bool>)
    ensures r.Err? ==> r.error == OutOfRange
    ensures r.Ok? ==> (r.value <==> HasPosting(ix, words, id))
    ensures AllIndexed(ix, words) ==> r.Ok?
    ensures !HasPosting(ix, words, id) && r.Ok? ==> AllIndexed(ix, words)
  {
    if words == [] then Ok(false)
    else
      var w := words[0];
      assert forall v :: v in words <==> v == w || v in words[1..] by {
        assert words == [w] + words[1..];
      }
      if w !in ix.wordToDocumentFreqs then Err(OutOfRange)
      else if id in ix.wordToDocumentFreqs[w] then Ok(true)
      else MinusHit(ix, words[1..], id)
  }

  /** `copy_if` over the plus words: the words whose bucket holds `id`, in query
      order; any word without a bucket throws `out_of_range`. */
  function PlusMatches(ix: Index, words: seq<string>, id: int): (r: Result<seq<string>>)
    ensures r.Err? <==> !AllIndexed(ix, words)
    ensures r.Err? ==> r.error == OutOfRange
    ensures r.Ok? ==> forall w :: w in r.value <==> w in words && id in ix.wordToDocumentFreqs[w]
  {
    if words == [] then Ok([])
    else
      var init := words[..|words| - 1];
      var w := words[|words| - 1];
      assert forall v :: v in words <==> v in init || v == w by {
        assert words == init + [w];
      }
      match PlusMatches(ix, init, id)
      case Err(e) => Err(e)
      case Ok(found) =>
        if w !in ix.wordToDocumentFreqs then Err(OutOfRange)
        else Ok(if id in ix.wordToDocumentFreqs[w] then found + [w] else found)
  }

  /** Keeping some words of a sorted, duplicate-free list keeps it so. */
  lemma {:induction false} PlusMatchesSorted(ix: Index, words: seq<string>, id: int)
    requires StrictlySorted(words) && PlusMatches(ix, words, id).Ok?
    ensures StrictlySorted(PlusMatches(ix, words, id).value)
  {
    if words != [] {
      var init := words[..|words| - 1];
      var w := words[|words| - 1];
      PlusMatchesSorted(ix, init, id);
      var found := PlusMatches(ix, init, id).value;
      forall k | 0 <= k < |found| ensures Less(found[k], w) {
        assert found[k] in init;
      }
    }
  }

  /** The matched words of one parsed query, then the status (`documents_.at(id)`,
      which throws `out_of_range` for an unknown id). */
  function MatchQuery(ix: Index, query: Query, id: int): Result<MatchResult>
  {
    match MinusHit(ix, query.minusWords, id)
    case Err(e) => Err(e)
    case Ok(hit) =>
      var words := if hit then Ok([]) else PlusMatches(ix, query.plusWords, id);
      match words
      case Err(e) => Err(e)
      case Ok(ws) =>
        if id !in ix.documents then Err(OutOfRange) else Ok(MatchResult(ws, ix.documents[id].status))
  }

  /** `MatchDocument(raw_query, document_id)`: the query parsed with duplicates removed. */
  function MatchDocumentOf(ix: Index, stopWords: set<string>, rawQuery: string, id: int): Result<MatchResult>
  {
    match QueryOf(rawQuery, stopWords, true)
    case Err(e) => Err(e)
    case Ok(query) => MatchQuery(ix, query, id)
  }

  /** Parallel matching of a parsed query. `any_of(par)` and `copy_if(par)` call
      `.at(word)` inside the parallel algorithms, so a word without a bucket ends the
      program instead of throwing; the model takes the execution of `any_of` that
      visits every minus word. The words are sorted and deduplicated afterwards. */
  function MatchQueryPar(ix: Index, query: Query, id: int): Result<MatchResult>
  {
    if !AllIndexed(ix, query.minusWords) then Err(Terminated)
    else if !HasPosting(ix, query.minusWords, id) && !AllIndexed(ix, query.plusWords) then Err(Terminated)
    else if id !in ix.documents then Err(OutOfRange)
    else
      var words := if HasPosting(ix, query.minusWords, id) then []
        else SortUnique(PlusMatches(ix, query.plusWords, id).value);
      Ok(MatchResult(words, ix.documents[id].status))
  }

  /** `MatchDocument(par, raw_query, document_id)`: the query keeps its duplicates. */
  function MatchDocumentParOf(ix: Index, stopWords: set<string>, rawQuery: string, id: int): Result<MatchResult>
  {
    match QueryOf(rawQuery, stopWords, false)
    case Err(e) => Err(e)
    case Ok(query) => MatchQueryPar(ix, query, id)
  }

  /** Sequential `MatchDocument`: an empty list when some minus word's bucket holds the
      document, otherwise its plus words in sorted order without repeats; the stored
      status. It fails for a malformed query, an unknown id, and when a query word it
      reaches has no bucket; it succeeds whenever every query word has one. */
  lemma MatchDocumentSpec(ix: Index, stopWords: set<string>, rawQuery: string, id: int)
    ensures var r := MatchDocumentOf(ix, stopWords, rawQuery, id);
      && (QueryOf(rawQuery, stopWords, true).Err? ==> r == Err(InvalidQuery))
      && (id !in ix.documents ==> r.Err?)
      && (r.Err? ==> r.error == InvalidQuery || r.error == OutOfRange)
    ensures QueryOf(rawQuery, stopWords, true).Ok? ==>
      var query := QueryOf(rawQuery, stopWords, true).value;
      var r := MatchDocumentOf(ix, stopWords, rawQuery, id);
      && (id in ix.documents && AllIndexed(ix, query.plusWords) && AllIndexed(ix, query.minusWords) ==> r.Ok?)
      && (r.Ok? ==>
        && id in ix.documents
        && r.value.status == ix.documents[id].status
        && (HasPosting(ix, query.minusWords, id) ==> r.value.words == [])
        && (!HasPosting(ix, query.minusWords, id) ==>
              forall w :: w in r.value.words <==> w in query.plusWords && HasPosting(ix, [w], id))
        && StrictlySorted(r.value.words))
  {
    if QueryOf(rawQuery, stopWords, true).Ok? {
      var query := QueryOf(rawQuery, stopWords, true).value;
      QueryWordsAreClean(rawQuery, stopWords, true);
      var r := MatchDocumentOf(ix, stopWords, rawQuery, id);
      if r.Ok? && !HasPosting(ix, query.minusWords, id) {
        PlusMatchesSorted(ix, query.plusWords, id);
        forall w ensures w in r.value.words <==> w in query.plusWords && HasPosting(ix, [w], id) {
          if w in query.plusWords && HasPosting(ix, [w], id) {
            assert w in ix.wordToDocumentFreqs;
          }
        }
      }
    }
  }

  /** Both parsings of a raw query have the same words: the sequential one only sorts
      and deduplicates each list. */
  lemma SameQueryWords(ix: Index, stopWords: set<string>, rawQuery: string, id: int)
    requires QueryOf(rawQuery, stopWords, false).Ok?
    ensures QueryOf(rawQuery, stopWords, true).Ok?
    ensures var raw := QueryOf(rawQuery, stopWords, false).value;
      var query := QueryOf(rawQuery, stopWords, true).value;
      && query == Query(SortUnique(raw.plusWords), SortUnique(raw.minusWords))
      && (AllIndexed(ix, raw.plusWords) <==> AllIndexed(ix, query.plusWords))
      && (AllIndexed(ix, raw.minusWords) <==> AllIndexed(ix, query.minusWords))
      && (HasPosting(ix, raw.minusWords, id) <==> HasPosting(ix, query.minusWords, id))
  {
    var raw := QueryOf(rawQuery, stopWords, false).value;
    var query := QueryOf(rawQuery, stopWords, true).value;
    assert query == Query(SortUnique(raw.plusWords), SortUnique(raw.minusWords));
    if HasPosting(ix, raw.minusWords, id) {
      var w :| w in raw.minusWords && w in ix.wordToDocumentFreqs && id in ix.wordToDocumentFreqs[w];
      assert w in query.minusWords;
    }
    if HasPosting(ix, query.minusWords, id) {
      var w :| w in query.minusWords && w in ix.wordToDocumentFreqs && id in ix.wordToDocumentFreqs[w];
      assert w in raw.minusWords;
    }
  }

  /** The parallel variant gives the same words and status as the sequential one
      whenever both succeed. */
  lemma MatchDocumentParAgrees(ix: Index, stopWords: set<string>, rawQuery: string, id: int)
    requires MatchDocumentOf(ix, stopWords, rawQuery, id).Ok?
    requires MatchDocumentParOf(ix, stopWords, rawQuery, id).Ok?
    ensures MatchDocumentParOf(ix, stopWords, rawQuery, id) == MatchDocumentOf(ix, stopWords, rawQuery, id)
  {
    SameQueryWords(ix, stopWords, rawQuery, id);
    var raw := QueryOf(rawQuery, stopWords, false).value;
    var query := QueryOf(rawQuery, stopWords, true).value;
    var seqResult := MatchDocumentOf(ix, stopWords, rawQuery, id).value;
    if !HasPosting(ix, query.minusWords, id) {
      QueryWordsAreClean(rawQuery, stopWords, true);
      PlusMatchesSorted(ix, query.plusWords, id);
      StrictlySortedUnique(SortUnique(PlusMatches(ix, raw.plusWords, id).value), seqResult.words);
    }
  }

  /** When every query word has a bucket and the id is known, both variants succeed
      and agree. */
  lemma MatchDocumentParSucceeds(ix: Index, stopWords: set<string>, rawQuery: string, id: int)
    requires QueryOf(rawQuery, stopWords, false).Ok? && id in ix.documents
    requires AllIndexed(ix, QueryOf(rawQuery, stopWords, false).value.plusWords)
    requires AllIndexed(ix, QueryOf(rawQuery, stopWords, false).value.minusWords)
    ensures MatchDocumentOf(ix, stopWords, rawQuery, id).Ok?
    ensures MatchDocumentParOf(ix, stopWords, rawQuery, id) == MatchDocumentOf(ix, stopWords, rawQuery, id)
  {
    SameQueryWords(ix, stopWords, rawQuery, id);
    MatchDocumentSpec(ix, stopWords, rawQuery, id);
    MatchDocumentParAgrees(ix, stopWords, rawQuery, id);
  }

  /** Where the sequential variant throws `out_of_range` for a query word without a
      bucket (the id being known), the parallel one ends the program. */
  lemma MatchDocumentParTerminates(ix: Index, stopWords: set<string>, rawQuery: string, id: int)
    requires id in ix.documents && MatchDocumentOf(ix, stopWords, rawQuery, id) == Err(OutOfRange)
    ensures MatchDocumentParOf(ix, stopWords, rawQuery, id) == Err(Terminated)
  {
    MatchDocumentSpec(ix, stopWords, rawQuery, id);
    assert QueryOf(rawQuery, stopWords, false).Ok?;
    SameQueryWords(ix, stopWords, rawQuery, id);
  }

  /** The parallel variant ends the program only where the sequential one fails, or
      where it stops at a minus word that holds the document before reaching one
      without a bucket. */
  lemma MatchDocumentParTerminatesOnlyOnMissingWord(ix: Index, stopWords: set<string>, rawQuery: string, id: int)
    requires MatchDocumentParOf(ix, stopWords, rawQuery, id) == Err(Terminated)
    ensures QueryOf(rawQuery, stopWords, true).Ok?
    ensures var query := QueryOf(rawQuery, stopWords, true).value;
      || MatchDocumentOf(ix, stopWords, rawQuery, id).Err?
      || (!AllIndexed(ix, query.minusWords) && HasPosting(ix, query.minusWords, id))
  {
    SameQueryWords(ix, stopWords, rawQuery, id);
  }

  /** The `any_of` and `copy_if` loops of `MatchDocument` on a parsed query. */
  method MatchParsed(ix: Index, query: Query, id: int) returns (r: Result<MatchResult>)
    ensures r == MatchQuery(ix, query, id)
  {
    var minus := query.minusWords;
    var hit := false;
    var i := 0;
    while i < |minus| && !hit
      invariant 0 <= i <= |minus|
      invariant hit ==> MinusHit(ix, minus, id) == Ok(true)
      invariant !hit ==> MinusHit(ix, minus, id) == MinusHit(ix, minus[i..], id)
    {
      var w := minus[i];
      assert minus[i..][1..] == minus[i + 1..];
      if w !in ix.wordToDocumentFreqs {
        return Err(OutOfRange);
      }
      if id in ix.wordToDocumentFreqs[w] {
        hit := true;
      }
      i := i + 1;
    }
    var matched: seq<string> := [];
    if !hit {
      var plus := query.plusWords;
      for k := 0 to |plus|
        invariant PlusMatches(ix, plus[..k], id) == Ok(matched)
      {
        var w := plus[k];
        assert plus[..k + 1][..k] == plus[..k];
        if w !in ix.wordToDocumentFreqs {
          return Err(OutOfRange);
        }
        if id in ix.wordToDocumentFreqs[w] {
          matched := matched + [w];
        }
      }
      assert plus[..|plus|] == plus;
    }
    if id !in ix.documents {
      return Err(OutOfRange);
    }
    r := Ok(MatchResult(matched, ix.documents[id].status));
  }

  /** Sequential `MatchDocument`. */
  method MatchDocument(ix: Index, stopWords: set<string>, rawQuery: string, id: int) returns (r: Result<MatchResult>)
    ensures r == MatchDocumentOf(ix, stopWords, rawQuery, id)
  {
    var query := ParseQuery(rawQuery, stopWords, true);
    if query.Err? {
      return Err(query.error);
    }
    r := MatchParsed(ix, query.value, id);
  }

  /** The parallel `any_of` and `copy_if` of `MatchDocument(par, ...)`, run
      sequentially: every minus word is visited, and a word without a bucket ends the
      program. */
  method MatchParsedPar(ix: Index, query: Query, id: int) returns (r: Result<MatchResult>)
    ensures r == MatchQueryPar(ix, query, id)
  {
    var minus := query.minusWords;
    var hit := false;
    for i := 0 to |minus|
      invariant AllIndexed(ix, minus[..i])
      invariant hit <==> HasPosting(ix, minus[..i], id)
    {
      var w := minus[i];
      assert minus[..i + 1] == minus[..i] + [w];
      if w !in ix.wordToDocumentFreqs {
        assert w in minus;
        return Err(Terminated);
      }
      if id in ix.wordToDocumentFreqs[w] {
        hit := true;
      }
    }
    assert minus[..|minus|] == minus;
    var matched: seq<string> := [];
    if !hit {
      var plus := query.plusWords;
      for k := 0 to |plus|
        invariant PlusMatches(ix, plus[..k], id) == Ok(matched)
      {
        var w := plus[k];
        assert plus[..k + 1][..k] == plus[..k];
        if w !in ix.wordToDocumentFreqs {
          assert w in plus;
          return Err(Terminated);
        }
        if id in ix.wordToDocumentFreqs[w] {
          matched := matched + [w];
        }
      }
      assert plus[..|plus|] == plus;
      matched := SortUnique(matched);
    }
    if id !in ix.documents {
      return Err(OutOfRange);
    }
    r := Ok(MatchResult(matched, ix.documents[id].status));
  }

  /** Parallel `MatchDocument`. */
  method MatchDocumentPar(ix: Index, stopWords: set<string>, rawQuery: string, id: int) returns (r: Result<MatchResult>)
    ensures r == MatchDocumentParOf(ix, stopWords, rawQuery, id)
  {
    var query := ParseQuery(rawQuery, stopWords, false);
    if query.Err? {
      return Err(query.error);
    }
    r := MatchParsedPar(ix, query.value, id);
  }
}
