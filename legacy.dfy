/** The earlier `SearchServer` (main.cpp:29-242): a tokenizer that drops empty words,
    stop words that can be added at any time, no checks on `AddDocument`, queries made
    of two sets of words that are never rejected, a `MatchDocument` that skips words
    without postings, and a different tie-breaking comparator. */
module Legacy {
  import opened Types
  import StringProcessing
  import opened StringOrder
  import opened Frequencies
  import opened InvertedIndex
  import Ratings
  import Parsing
  import Ranking
  import Matching
  import Server

  // ---------------------------------------------------------------------------------
  // The tokenizer

  /** The state of the character loop of `SplitIntoWords`: the words pushed so far and
      the word being built. */
  datatype ScanState = ScanState(words: seq<string>, word: string)

  /** The loop state after the characters of `text`: a space pushes a non-empty word
      and clears it, any other character is appended to it. */
  function Scan(text: string): ScanState
  {
    if text == [] then ScanState([], "")
    else
      Step(Scan(text[..|text| - 1]), text[|text| - 1])
  }

  /** One character of the loop. */
  function Step(st: ScanState, c: char): ScanState
  {
    if c == ' ' then
      (if st.word == "" then st else ScanState(st.words + [st.word], ""))
    else ScanState(st.words, st.word + [c])
  }

  /** What `SplitIntoWords` returns: the pushed words and the last word when it is not
      empty. */
  function Words(text: string): seq<string>
  {
    var st := Scan(text);
    if st.word == "" then st.words else st.words + [st.word]
  }

  /** The text without its spaces. */
  function RemoveSpaces(text: string): string
  {
    if text == [] then []
    else RemoveSpaces(text[..|text| - 1]) + (if text[|text| - 1] == ' ' then [] else [text[|text| - 1]])
  }

  /** The words one after another, with nothing between them. */
  function Concat(words: seq<string>): string
  {
    if words == [] then [] else Concat(words[..|words| - 1]) + words[|words| - 1]
  }

  /** The pieces other than the empty one, in order. */
  function NonEmpty(pieces: seq<string>): seq<string>
  {
    if pieces == [] then []
    else NonEmpty(pieces[..|pieces| - 1]) + (if pieces[|pieces| - 1] == "" then [] else [pieces[|pieces| - 1]])
  }

  /** A word of this tokenizer: non-empty and free of spaces. */
  predicate IsWord(w: string)
  {
    w != "" && ' ' !in w
  }

  lemma ConcatStep(words: seq<string>, w: string)
    ensures Concat(words + [w]) == Concat(words) + w
  {
    assert (words + [w])[..|words|] == words;
  }

  /** The loop keeps three facts: every pushed word is a word, the word being built has
      no space, and together they spell the text read so far without its spaces. */
  lemma {:induction false} ScanInvariant(text: string)
    ensures var st := Scan(text);
      && (forall k :: 0 <= k < |st.words| ==> IsWord(st.words[k]))
      && ' ' !in st.word
      && Concat(st.words) + st.word == RemoveSpaces(text)
  {
    if text != [] {
      var init := text[..|text| - 1];
      var st := Scan(init);
      ScanInvariant(init);
      if text[|text| - 1] == ' ' && st.word != "" {
        ConcatStep(st.words, st.word);
      }
    }
  }

  /** `SplitIntoWords` returns no empty word and no word with a space, and its words
      spell the text without its spaces. */
  lemma WordsSpec(text: string)
    ensures forall k :: 0 <= k < |Words(text)| ==> IsWord(Words(text)[k])
    ensures Concat(Words(text)) == RemoveSpaces(text)
  {
    var st := Scan(text);
    ScanInvariant(text);
    if st.word != "" {
      ConcatStep(st.words, st.word);
    }
  }

  /** A text without spaces is one piece. */
  lemma SplitNoSpace(a: string)
    requires ' ' !in a
    ensures StringProcessing.Split(a) == [a]
  {
    StringProcessing.FindAbsent(a, ' ');
  }

  /** A space-free piece, a space, then the rest: the piece comes first. */
  lemma SplitCons(a: string, b: string)
    requires ' ' !in a
    ensures StringProcessing.Split(a + [' '] + b) == [a] + StringProcessing.Split(b)
  {
    var s := a + [' '] + b;
    StringProcessing.FindAfterPrefix(a, b, ' ');
    assert s[..|a|] == a && s[|a| + 1..] == b;
  }

  /** What one more character does to the pieces `p`: a space opens a new empty piece,
      any other character extends the last piece. */
  function Extended(p: seq<string>, c: char): seq<string>
    requires p != []
  {
    if c == ' ' then p + [""] else p[..|p| - 1] + [p[|p| - 1] + [c]]
  }

  /** The first piece of a text that starts with a space-free piece and a space is
      unaffected by a character added at the end. */
  lemma ExtendedCons(a: string, r: seq<string>, c: char)
    requires r != []
    ensures Extended([a] + r, c) == [a] + Extended(r, c)
  {
    if c != ' ' {
      assert ([a] + r)[..|r|] == [a] + r[..|r| - 1];
    }
  }

  /** One more character extends the pieces as `Extended` says. */
  lemma {:induction false} SplitSnoc(s: string, c: char)
    ensures StringProcessing.Split(s + [c]) == Extended(StringProcessing.Split(s), c)
    decreases |s|
  {
    var i := StringProcessing.Find(s, ' ');
    if i == |s| {
      assert ' ' !in s;
      SplitNoSpace(s);
      if c == ' ' {
        SplitCons(s, "");
        assert s + [c] == s + [' '] + "";
      } else {
        SplitNoSpace(s + [c]);
      }
    } else {
      var a := s[..i];
      var rest := s[i + 1..];
      assert ' ' !in a;
      assert s == a + [' '] + rest;
      assert s + [c] == a + [' '] + (rest + [c]);
      SplitCons(a, rest);
      SplitCons(a, rest + [c]);
      SplitSnoc(rest, c);
      ExtendedCons(a, StringProcessing.Split(rest), c);
    }
  }

  /** The loop state and the single-space split of the same text: the word being built
      is the last piece, and the pushed words are the earlier pieces that are not
      empty. */
  lemma {:induction false} ScanIsSplit(text: string)
    ensures var p := StringProcessing.Split(text);
      && Scan(text).word == p[|p| - 1]
      && Scan(text).words == NonEmpty(p[..|p| - 1])
  {
    if text == [] {
      assert StringProcessing.Split(text)[..0] == [];
    } else {
      var init := text[..|text| - 1];
      var c := text[|text| - 1];
      ScanIsSplit(init);
      assert text == init + [c];
      SplitSnoc(init, c);
      StepExtends(Scan(init), StringProcessing.Split(init), c);
    }
  }

  /** One character keeps the correspondence between the loop state and the pieces. */
  lemma StepExtends(st: ScanState, p: seq<string>, c: char)
    requires p != [] && st.word == p[|p| - 1] && st.words == NonEmpty(p[..|p| - 1])
    ensures var q := Extended(p, c);
      && Step(st, c).word == q[|q| - 1]
      && Step(st, c).words == NonEmpty(q[..|q| - 1])
  {
    if c == ' ' {
      assert (p + [""])[..|p|] == p;
    } else {
      assert (p[..|p| - 1] + [p[|p| - 1] + [c]])[..|p| - 1] == p[..|p| - 1];
    }
  }

  /** The earlier tokenizer gives the pieces of the single-space split without the empty
      ones. */
  lemma WordsAreNonEmptyPieces(text: string)
    ensures Words(text) == NonEmpty(StringProcessing.Split(text))
  {
    ScanIsSplit(text);
    var p := StringProcessing.Split(text);
    var n := |p| - 1;
    var st := Scan(text);
    assert st.word == p[n] && st.words == NonEmpty(p[..n]);
    assert NonEmpty(p) == NonEmpty(p[..n]) + (if p[n] == "" then [] else [p[n]]);
  }

  /** `SplitIntoWords`: the character loop. */
  method SplitIntoWords(text: string) returns (words: seq<string>)
    ensures words == Words(text)
  {
    words := [];
    var word := "";
    for i := 0 to |text|
      invariant Scan(text[..i]) == ScanState(words, word)
    {
      assert text[..i + 1][..i] == text[..i];
      var c := text[i];
      if c == ' ' {
        if word != "" {
          words := words + [word];
          word := "";
        }
      } else {
        word := word + [c];
      }
    }
    assert text[..|text|] == text;
    if word != "" {
      words := words + [word];
    }
  }

  // ---------------------------------------------------------------------------------
  // Ratings

  /** `ComputeAverageRating`: zero without ratings, otherwise the sum divided by the
      count, truncated toward zero. */
  function ComputeAverageRating(ratings: seq<int>): int
  {
    if ratings == [] then 0 else Ratings.TruncDiv(Ratings.Sum(ratings), |ratings|)
  }

  /** No ratings give zero; otherwise the average lies between the smallest and the
      largest rating. */
  lemma AverageRatingBounds(ratings: seq<int>, lo: int, hi: int)
    requires forall i :: 0 <= i < |ratings| ==> lo <= ratings[i] <= hi
    ensures ratings == [] ==> ComputeAverageRating(ratings) == 0
    ensures ratings != [] ==> lo <= ComputeAverageRating(ratings) <= hi
    ensures ratings != [] ==> ComputeAverageRating(ratings) == Ratings.AverageRating(ratings)
  {
    if ratings != [] {
      Ratings.AverageWithinBounds(ratings, lo, hi);
    }
  }

  /** The averages the unit tests expect. */
  lemma AverageRatingExamples()
    ensures ComputeAverageRating([1, 2, 3]) == 2
    ensures ComputeAverageRating([5, 6, 7, 8]) == 6
    ensures ComputeAverageRating([10, 15, 3]) == 9
    ensures ComputeAverageRating([]) == 0
  {
    assert [1, 2, 3][..2] == [1, 2] && [1, 2][..1] == [1] && [1][..0] == [];
    assert [5, 6, 7, 8][..3] == [5, 6, 7] && [5, 6, 7][..2] == [5, 6] && [5, 6][..1] == [5] && [5][..0] == [];
    assert [10, 15, 3][..2] == [10, 15] && [10, 15][..1] == [10] && [10][..0] == [];
    assert Ratings.Sum([1, 2, 3]) == 6;
    assert Ratings.Sum([5, 6, 7, 8]) == 26;
    assert Ratings.Sum([10, 15, 3]) == 28;
  }

  // ---------------------------------------------------------------------------------
  // Indexing a document

  /** The postings after every word `w` of `freqs` adds `freqs[w]` to the entry of `id`,
      creating the bucket and the entry at zero when absent. */
  function Merged(p: map<string, map<int, real>>, id: int, freqs: map<string, real>): map<string, map<int, real>>
  {
    map w | w in p.Keys + freqs.Keys :: if w in freqs then Server.Bumped(Bucket(p, w), id, freqs[w]) else p[w]
  }

  /** `documents_.emplace`: a record is added only for a new id. */
  function Emplaced(documents: map<int, DocumentData>, id: int, data: DocumentData): map<int, DocumentData>
  {
    if id in documents then documents else documents[id := data]
  }

  lemma MergedNothing(p: map<string, map<int, real>>, id: int)
    ensures Merged(p, id, map[]) == p
  {
  }

  /** One `word_to_document_freqs_[word][document_id] += inv_word_count`. */
  lemma MergedStep(p: map<string, map<int, real>>, id: int, freqs: map<string, real>, w: string, inv: real)
    ensures var m := Merged(p, id, freqs);
      m[w := Server.Bumped(Bucket(m, w), id, inv)] == Merged(p, id, Server.Bumped(freqs, w, inv))
  {
    var m := Merged(p, id, freqs);
    var lhs := m[w := Server.Bumped(Bucket(m, w), id, inv)];
    var rhs := Merged(p, id, Server.Bumped(freqs, w, inv));
    forall x ensures x in lhs <==> x in rhs
    ensures x in lhs ==> lhs[x] == rhs[x] {
      MergedStepAt(p, id, freqs, w, inv, x);
    }
    assert lhs == rhs;
  }

  lemma MergedStepAt(p: map<string, map<int, real>>, id: int, freqs: map<string, real>, w: string, inv: real, x: string)
    ensures var m := Merged(p, id, freqs);
      var lhs := m[w := Server.Bumped(Bucket(m, w), id, inv)];
      var rhs := Merged(p, id, Server.Bumped(freqs, w, inv));
      (x in lhs <==> x in rhs) && (x in lhs ==> lhs[x] == rhs[x])
  {
    var m := Merged(p, id, freqs);
    var freqs' := Server.Bumped(freqs, w, inv);
    if x == w {
      var b := Bucket(p, w);
      var base := if id in b then b[id] else 0.0;
      var f := if w in freqs then freqs[w] else 0.0;
      assert Bucket(m, w) == if w in freqs then Server.Bumped(b, id, f) else b;
      assert Merged(p, id, freqs')[w] == b[id := base + (f + inv)];
      assert (base + f) + inv == base + (f + inv);
    } else {
      assert x in freqs' <==> x in freqs;
    }
  }

  /** For an id with no posting yet, merging is indexing it afresh, as the current
      server does. */
  lemma MergedFresh(p: map<string, map<int, real>>, id: int, freqs: map<string, real>)
    requires forall w :: w in p ==> id !in p[w]
    ensures Merged(p, id, freqs) == WithDocument(p, id, freqs)
  {
    var lhs := Merged(p, id, freqs);
    var rhs := WithDocument(p, id, freqs);
    forall w | w in lhs ensures lhs[w] == rhs[w] {
      WithDocumentAt(p, id, freqs, w);
      if w in freqs {
        assert id !in Bucket(p, w);
        assert lhs[w] == Bucket(p, w)[id := 0.0 + freqs[w]];
      }
    }
  }

  /** The indexing loop of `AddDocument`: every word adds `1 / |words|` to the entry of
      `id` in its bucket. (The source divides before it loops; with no words the
      quotient is infinite and never used, so the model does not divide.) */
  method AccumulateWords(p: map<string, map<int, real>>, id: int, words: seq<string>)
    returns (postings: map<string, map<int, real>>)
    ensures postings == Merged(p, id, TermFreqs(words))
  {
    postings := p;
    MergedNothing(p, id);
    if words == [] {
      return;
    }
    var inv := 1.0 / (|words| as real);
    ghost var freqs: map<string, real> := map[];
    assert words[..0] == [];
    for i := 0 to |words|
      invariant freqs == Accumulated(words[..i], inv)
      invariant postings == Merged(p, id, freqs)
    {
      var word := words[i];
      Server.FreqsStep(words, i, inv);
      MergedStep(p, id, freqs, word, inv);
      postings := postings[word := Server.Bumped(Bucket(postings, word), id, inv)];
      freqs := Server.Bumped(freqs, word, inv);
    }
    assert words[..|words|] == words;
  }

  /** The server's two maps as an index value with an empty reverse map and id set,
      which this version does not keep; ranking reads only the postings and the
      records. */
  function AsIndex(p: map<string, map<int, real>>, documents: map<int, DocumentData>): Index
  {
    Index(p, documents, map[], {})
  }

  /** Adding keeps every posting's id among the records. */
  lemma AddKeepsKnown(p: map<string, map<int, real>>, documents: map<int, DocumentData>, id: int,
                      freqs: map<string, real>, data: DocumentData)
    requires Ranking.PostingsKnown(AsIndex(p, documents))
    ensures Ranking.PostingsKnown(AsIndex(Merged(p, id, freqs), Emplaced(documents, id, data)))
  {
    var q := Merged(p, id, freqs);
    var docs := Emplaced(documents, id, data);
    forall w, d | w in q && d in q[w] ensures d in docs {
      if w in freqs && d != id {
        assert d in Bucket(p, w);
      }
    }
  }

  // ---------------------------------------------------------------------------------
  // Queries

  /** `ParseQueryWord`: one leading `-` marks a minus word and is removed; the word is
      a stop word when what is left is one. For the empty word, which the tokenizer
      never produces, `text[0]` reads the terminating NUL, so it is a plus word. */
  function ParseQueryWord(text: string, stopWords: set<string>): (qw: Parsing.QueryWord)
    ensures qw.isMinus <==> |text| > 0 && text[0] == '-'
    ensures (if qw.isMinus then "-" else "") + qw.data == text
    ensures qw.isStop <==> qw.data in stopWords
  {
    if |text| > 0 && text[0] == '-' then
      assert text == "-" + text[1..];
      Parsing.QueryWord(text[1..], true, text[1..] in stopWords)
    else Parsing.QueryWord(text, false, text in stopWords)
  }

  /** Query word `text` puts `x` in the minus set (`minus`) or the plus set. */
  predicate Contributes(text: string, x: string, minus: bool, stopWords: set<string>)
  {
    var qw := ParseQueryWord(text, stopWords);
    !qw.isStop && qw.isMinus == minus && qw.data == x
  }

  /** The query `ParseQuery` builds from the words `words`: two sets, laid out as
      strictly sorted lists, that receive the non-stop words. */
  function ParseWords(words: seq<string>, stopWords: set<string>): (q: Parsing.Query)
    ensures StrictlySorted(q.plusWords) && StrictlySorted(q.minusWords)
    ensures forall x :: x in q.plusWords <==> exists w :: w in words && Contributes(w, x, false, stopWords)
    ensures forall x :: x in q.minusWords <==> exists w :: w in words && Contributes(w, x, true, stopWords)
  {
    if words == [] then Parsing.Query([], [])
    else
      var init := words[..|words| - 1];
      var last := words[|words| - 1];
      assert words == init + [last];
      var q := ParseWords(init, stopWords);
      var qw := ParseQueryWord(last, stopWords);
      var r :=
        if qw.isStop then q
        else if qw.isMinus then q.(minusWords := InsertUnique(q.minusWords, qw.data))
        else q.(plusWords := InsertUnique(q.plusWords, qw.data));
      ContributesStep(words, init, last, q.plusWords, r.plusWords, false, stopWords);
      ContributesStep(words, init, last, q.minusWords, r.minusWords, true, stopWords);
      r
  }

  /** The words one more query word contributes: those of the earlier words and its
      own. */
  lemma ContributesStep(words: seq<string>, init: seq<string>, last: string, s: seq<string>, s': seq<string>,
                        minus: bool, stopWords: set<string>)
    requires words == init + [last]
    requires forall x :: x in s <==> exists w :: w in init && Contributes(w, x, minus, stopWords)
    requires forall x :: x in s' <==> x in s || Contributes(last, x, minus, stopWords)
    ensures forall x :: x in s' <==> exists w :: w in words && Contributes(w, x, minus, stopWords)
  {
    forall x ensures x in s' <==> exists w :: w in words && Contributes(w, x, minus, stopWords) {
      if x in s' {
        if x in s {
          var w :| w in init && Contributes(w, x, minus, stopWords);
          assert w in words;
        } else {
          assert last in words;
        }
      }
      if exists w :: w in words && Contributes(w, x, minus, stopWords) {
        var w :| w in words && Contributes(w, x, minus, stopWords);
        if w != last {
          assert w in init;
        }
      }
    }
  }

  /** `ParseQuery(text)`. */
  function QueryOf(text: string, stopWords: set<string>): Parsing.Query
  {
    ParseWords(Words(text), stopWords)
  }

  /** No query word is a stop word. */
  lemma QueryHasNoStopWords(text: string, stopWords: set<string>)
    ensures forall x :: x in QueryOf(text, stopWords).plusWords ==> x !in stopWords
    ensures forall x :: x in QueryOf(text, stopWords).minusWords ==> x !in stopWords
  {
    var q := QueryOf(text, stopWords);
    forall x | x in q.plusWords ensures x !in stopWords {
      var w :| w in Words(text) && Contributes(w, x, false, stopWords);
    }
    forall x | x in q.minusWords ensures x !in stopWords {
      var w :| w in Words(text) && Contributes(w, x, true, stopWords);
    }
  }

  // ---------------------------------------------------------------------------------
  // Finding documents

  /** What `FindTopDocuments(raw_query, document_predicate)` returns: the documents of
      the query in rank order, at most five of them. The source sorts with the
      comparator `CompareAsWritten`, which is not a strict weak order; the model sorts
      by `Ranking.Before`, which agrees with it wherever it is one. */
  function TopDocuments(ix: Index, stopWords: set<string>, rawQuery: string, pred: Predicate,
                        idf: IdfFunction): seq<Document>
  {
    Ranking.Truncate(Ranking.SortByRank(Ranking.MatchedDocuments(ix, QueryOf(rawQuery, stopWords), pred, idf)))
  }

  /** `FindTopDocuments` never fails: at most five found documents, each with its
      relevance and stored rating, in rank order; as many as were found when they are
      at most five, and none left out that ranks before one kept. */
  lemma TopDocumentsSpec(ix: Index, stopWords: set<string>, rawQuery: string, pred: Predicate,
                         idf: IdfFunction, d: int)
    ensures var r := TopDocuments(ix, stopWords, rawQuery, pred, idf);
      var query := QueryOf(rawQuery, stopWords);
      var found := Ranking.Candidates(ix, query, pred);
      && |r| == (if |found| > MAX_RESULT_DOCUMENT_COUNT then MAX_RESULT_DOCUMENT_COUNT else |found|)
      && Ranking.SortedByRank(r)
      && Ranking.DistinctIds(r)
      && (forall doc :: doc in r ==> doc.id in found && doc == Ranking.Row(ix, doc.id, query.plusWords, idf))
      && (d in found ==>
            Ranking.Row(ix, d, query.plusWords, idf) in r
            || forall doc :: doc in r ==> !Ranking.Before(Ranking.Row(ix, d, query.plusWords, idf), doc))
  {
    var query := QueryOf(rawQuery, stopWords);
    var matched := Ranking.MatchedDocuments(ix, query, pred, idf);
    Ranking.MatchedDocumentsSpec(ix, query, pred, idf);
    Ranking.TruncatedSortSpec(matched);
    Ranking.SubMultisetDistinctIds(Ranking.Truncate(Ranking.SortByRank(matched)), matched);
    if d in Ranking.Candidates(ix, query, pred) {
      Ranking.TruncatedSortKeepsBest(matched, Ranking.Row(ix, d, query.plusWords, idf));
    }
  }

  /** A query whose words are all stop words finds nothing. */
  lemma StopWordQueryFindsNothing(ix: Index, stopWords: set<string>, rawQuery: string, pred: Predicate,
                                  idf: IdfFunction)
    requires forall w :: w in Words(rawQuery) ==> ParseQueryWord(w, stopWords).isStop
    ensures TopDocuments(ix, stopWords, rawQuery, pred, idf) == []
  {
    var query := QueryOf(rawQuery, stopWords);
    forall x ensures x !in query.plusWords {
      assert forall w :: w in Words(rawQuery) ==> !Contributes(w, x, false, stopWords);
    }
    assert Ranking.Candidates(ix, query, pred) == {};
    TopDocumentsSpec(ix, stopWords, rawQuery, pred, idf, 0);
  }

  // ---------------------------------------------------------------------------------
  // Matching a document

  /** The words of `words` whose bucket holds `id`, in order; a word without a bucket
      is skipped. */
  function Kept(p: map<string, map<int, real>>, words: seq<string>, id: int): (r: seq<string>)
    ensures forall w :: w in r <==> w in words && w in p && id in p[w]
  {
    if words == [] then []
    else
      var init := words[..|words| - 1];
      var w := words[|words| - 1];
      assert forall v :: v in words <==> v in init || v == w by {
        assert words == init + [w];
      }
      Kept(p, init, id) + (if w in p && id in p[w] then [w] else [])
  }

  /** Keeping some words of a strictly sorted list keeps it strictly sorted. */
  lemma {:induction false} KeptSorted(p: map<string, map<int, real>>, words: seq<string>, id: int)
    requires StrictlySorted(words)
    ensures StrictlySorted(Kept(p, words, id))
  {
    if words != [] {
      var init := words[..|words| - 1];
      var w := words[|words| - 1];
      KeptSorted(p, init, id);
      var found := Kept(p, init, id);
      forall k | 0 <= k < |found| ensures Less(found[k], w) {
        assert found[k] in init;
      }
    }
  }

  /** `MatchDocument` on a parsed query: the plus words with a posting for `id`, none
      when a minus word has one, and the stored status; an unknown id throws
      `out_of_range` from `documents_.at`. */
  function MatchQuery(ix: Index, query: Parsing.Query, id: int): Result<Matching.MatchResult>
  {
    if id !in ix.documents then Err(OutOfRange)
    else
      var words := if Ranking.HasPosting(ix, query.minusWords, id) then []
        else Kept(ix.wordToDocumentFreqs, query.plusWords, id);
      Ok(Matching.MatchResult(words, ix.documents[id].status))
  }

  /** `MatchDocument(raw_query, document_id)`. */
  function MatchDocumentOf(ix: Index, stopWords: set<string>, rawQuery: string, id: int): Result<Matching.MatchResult>
  {
    MatchQuery(ix, QueryOf(rawQuery, stopWords), id)
  }

  /** `MatchDocument` fails only for an unknown id. Otherwise it gives the stored status
      and, unless a minus word has a posting for the document, exactly the plus words
      with one, sorted and without repeats; words that are not indexed are skipped. */
  lemma MatchDocumentSpec(ix: Index, stopWords: set<string>, rawQuery: string, id: int)
    ensures var r := MatchDocumentOf(ix, stopWords, rawQuery, id);
      var query := QueryOf(rawQuery, stopWords);
      && (r.Err? <==> id !in ix.documents)
      && (r.Err? ==> r.error == OutOfRange)
      && (r.Ok? ==>
        && r.value.status == ix.documents[id].status
        && StrictlySorted(r.value.words)
        && (Ranking.HasPosting(ix, query.minusWords, id) ==> r.value.words == [])
        && (!Ranking.HasPosting(ix, query.minusWords, id) ==>
              forall w :: w in r.value.words <==> w in query.plusWords && Ranking.HasPosting(ix, [w], id)))
  {
    var query := QueryOf(rawQuery, stopWords);
    KeptSorted(ix.wordToDocumentFreqs, query.plusWords, id);
    var r := MatchDocumentOf(ix, stopWords, rawQuery, id);
    if r.Ok? && !Ranking.HasPosting(ix, query.minusWords, id) {
      forall w ensures w in r.value.words <==> w in query.plusWords && Ranking.HasPosting(ix, [w], id) {
        if w in query.plusWords && Ranking.HasPosting(ix, [w], id) {
          assert w in ix.wordToDocumentFreqs;
        }
      }
    }
  }

  /** The plus loop of `MatchDocument`: words without a bucket are skipped. */
  method KeepWords(p: map<string, map<int, real>>, plus: seq<string>, id: int) returns (matched: seq<string>)
    ensures matched == Kept(p, plus, id)
  {
    matched := [];
    for i := 0 to |plus|
      invariant matched == Kept(p, plus[..i], id)
    {
      assert plus[..i + 1][..i] == plus[..i];
      var w := plus[i];
      if w in p && id in p[w] {
        matched := matched + [w];
      }
    }
    assert plus[..|plus|] == plus;
  }

  /** The loops of `MatchDocument` on a parsed query: the plus words are kept, then the
      minus loop clears them and stops at the first bucket holding the document; the
      status comes last, from `documents_.at`. */
  method MatchParsed(ix: Index, query: Parsing.Query, id: int) returns (r: Result<Matching.MatchResult>)
    ensures r == MatchQuery(ix, query, id)
  {
    var p := ix.wordToDocumentFreqs;
    var matched := KeepWords(p, query.plusWords, id);
    var minus := query.minusWords;
    var i := 0;
    var hit := false;
    while i < |minus|
      invariant 0 <= i <= |minus|
      invariant !Ranking.HasPosting(ix, minus[..i], id)
    {
      var w := minus[i];
      if w in p && id in p[w] {
        matched := [];
        hit := true;
        break;
      }
      assert minus[..i + 1] == minus[..i] + [w];
      i := i + 1;
    }
    assert hit <==> Ranking.HasPosting(ix, minus, id) by {
      if !hit {
        assert minus[..i] == minus;
      }
    }
    if id !in ix.documents {
      return Err(OutOfRange);
    }
    r := Ok(Matching.MatchResult(matched, ix.documents[id].status));
  }

  // ---------------------------------------------------------------------------------
  // The server

  class LegacySearchServer {
    /** `stop_words_`. */
    var stopWords: set<string>
    /** `word_to_document_freqs_`: word -> (id -> term frequency). */
    var wordToDocumentFreqs: map<string, map<int, real>>
    /** `documents_`: id -> (rating, status). */
    var documents: map<int, DocumentData>

    /** The postings and the records as an index value. */
    function State(): Index
      reads this
    {
      AsIndex(wordToDocumentFreqs, documents)
    }

    /** Every posting belongs to a stored document, so `documents_.at` in
        `FindAllDocuments` cannot throw. */
    ghost predicate Valid()
      reads this
    {
      Ranking.PostingsKnown(State())
    }

    constructor()
      ensures stopWords == {} && wordToDocumentFreqs == map[] && documents == map[]
      ensures Valid()
    {
      stopWords := {};
      wordToDocumentFreqs := map[];
      documents := map[];
    }

    /** `SetStopWords`: the words of the text join the stop words. Documents already
        indexed keep their postings. */
    method SetStopWords(text: string)
      requires Valid()
      modifies this
      ensures Valid()
      ensures stopWords == old(stopWords) + (set w | w in Words(text))
      ensures wordToDocumentFreqs == old(wordToDocumentFreqs) && documents == old(documents)
    {
      var words := SplitIntoWords(text);
      for i := 0 to |words|
        invariant stopWords == old(stopWords) + (set w | w in words[..i])
        invariant wordToDocumentFreqs == old(wordToDocumentFreqs) && documents == old(documents)
      {
        assert words[..i + 1] == words[..i] + [words[i]];
        stopWords := stopWords + {words[i]};
      }
      assert words[..|words|] == words;
    }

    /** `SplitIntoWordsNoStop`. */
    method SplitIntoWordsNoStop(text: string) returns (words: seq<string>)
      ensures words == Parsing.RemoveStopWords(Words(text), stopWords)
    {
      var pieces := SplitIntoWords(text);
      var stops := stopWords;
      words := [];
      for i := 0 to |pieces|
        invariant words == Parsing.RemoveStopWords(pieces[..i], stops)
      {
        assert pieces[..i + 1][..i] == pieces[..i];
        if pieces[i] !in stops {
          words := words + [pieces[i]];
        }
      }
      assert pieces[..|pieces|] == pieces;
    }

    /** `AddDocument`, which checks nothing: every non-stop word adds its share of the
        words to the entry of `id` (on top of an earlier one for an id added before),
        and a record is stored only for a new id. */
    method AddDocument(id: int, text: string, status: DocumentStatus, ratings: seq<int>)
      requires Valid()
      modifies this
      ensures Valid()
      ensures stopWords == old(stopWords)
      ensures wordToDocumentFreqs ==
        Merged(old(wordToDocumentFreqs), id, TermFreqs(Parsing.RemoveStopWords(Words(text), stopWords)))
      ensures documents == Emplaced(old(documents), id, DocumentData(ComputeAverageRating(ratings), status))
    {
      var words := SplitIntoWordsNoStop(text);
      var data := DocumentData(ComputeAverageRating(ratings), status);
      AddKeepsKnown(wordToDocumentFreqs, documents, id, TermFreqs(words), data);
      wordToDocumentFreqs := AccumulateWords(wordToDocumentFreqs, id, words);
      if id !in documents {
        documents := documents[id := data];
      }
    }

    /** `GetDocumentCount`. */
    function GetDocumentCount(): nat
      reads this
    {
      |documents|
    }

    /** `ParseQuery`: the non-stop words of the text go into the plus or the minus
        set. */
    method ParseQuery(text: string) returns (query: Parsing.Query)
      ensures query == QueryOf(text, stopWords)
    {
      var words := SplitIntoWords(text);
      var plus: seq<string> := [];
      var minus: seq<string> := [];
      for i := 0 to |words|
        invariant ParseWords(words[..i], stopWords) == Parsing.Query(plus, minus)
      {
        assert words[..i + 1][..i] == words[..i];
        var qw := ParseQueryWord(words[i], stopWords);
        if !qw.isStop {
          if qw.isMinus {
            minus := InsertUnique(minus, qw.data);
          } else {
            plus := InsertUnique(plus, qw.data);
          }
        }
      }
      assert words[..|words|] == words;
      query := Parsing.Query(plus, minus);
    }

    /** `FindTopDocuments(raw_query, document_predicate)`. */
    method FindTopDocuments(rawQuery: string, pred: Predicate, idf: IdfFunction) returns (r: seq<Document>)
      requires Valid()
      ensures r == TopDocuments(State(), stopWords, rawQuery, pred, idf)
    {
      var query := ParseQuery(rawQuery);
      var matched := Ranking.FindAllDocuments(State(), query, pred, idf);
      matched := Ranking.SortDocuments(matched);
      if |matched| > MAX_RESULT_DOCUMENT_COUNT {
        matched := matched[..MAX_RESULT_DOCUMENT_COUNT];
      }
      r := matched;
    }

    /** `FindTopDocuments(raw_query, document_status)`. */
    method FindTopDocumentsWithStatus(rawQuery: string, status: DocumentStatus, idf: IdfFunction)
      returns (r: seq<Document>)
      requires Valid()
      ensures r == TopDocuments(State(), stopWords, rawQuery, Ranking.StatusIs(status), idf)
    {
      r := FindTopDocuments(rawQuery, Ranking.StatusIs(status), idf);
    }

    /** `FindTopDocuments(raw_query)`: `Actual` documents only. */
    method FindActualTopDocuments(rawQuery: string, idf: IdfFunction) returns (r: seq<Document>)
      requires Valid()
      ensures r == TopDocuments(State(), stopWords, rawQuery, Ranking.StatusIs(Actual), idf)
    {
      r := FindTopDocumentsWithStatus(rawQuery, Actual, idf);
    }

    /** `MatchDocument(raw_query, document_id)`. */
    method MatchDocument(rawQuery: string, id: int) returns (r: Result<Matching.MatchResult>)
      ensures r == MatchDocumentOf(State(), stopWords, rawQuery, id)
    {
      var query := ParseQuery(rawQuery);
      r := MatchParsed(State(), query, id);
    }
  }

  // ---------------------------------------------------------------------------------
  // What adding a document does

  /** A new document gets the same postings as in the current server: each of its
      non-stop words has frequency occurrences / number of non-stop words, and other
      documents keep theirs. */
  lemma AddNewDocument(p: map<string, map<int, real>>, documents: map<int, DocumentData>, id: int,
                       words: seq<string>, w: string)
    requires Ranking.PostingsKnown(AsIndex(p, documents)) && id !in documents
    ensures Merged(p, id, TermFreqs(words)) == WithDocument(p, id, TermFreqs(words))
    ensures w in words ==>
      && w in Merged(p, id, TermFreqs(words))
      && Merged(p, id, TermFreqs(words))[w][id] == Share(Count(words, w), |words|)
  {
    MergedFresh(p, id, TermFreqs(words));
    if w in words {
      TermFreqInUnitInterval(words, w);
      WithDocumentAt(p, id, TermFreqs(words), w);
    }
  }

  /** Adding an id a second time adds the new frequencies onto the old ones, and the
      first record (rating and status) stays. */
  lemma AddExistingAccumulates(p: map<string, map<int, real>>, documents: map<int, DocumentData>, id: int,
                               words: seq<string>, data: DocumentData, w: string)
    requires id in documents && w in words && w in p && id in p[w]
    ensures Emplaced(documents, id, data) == documents
    ensures Merged(p, id, TermFreqs(words))[w][id] == p[w][id] + TermFreqs(words)[w]
  {
    TermFreqAt(words, w);
  }

  /** Words that are stop words when a document is added get no posting for it: their
      buckets stay as they were, and no bucket is created for them. */
  lemma StopWordsNotIndexed(p: map<string, map<int, real>>, id: int, text: string, stopWords: set<string>, w: string)
    requires w in stopWords
    ensures var q := Merged(p, id, TermFreqs(Parsing.RemoveStopWords(Words(text), stopWords)));
      (w in q <==> w in p) && (w in p ==> q[w] == p[w])
  {
    var words := Parsing.RemoveStopWords(Words(text), stopWords);
    assert w !in words;
    if words != [] {
      TermFreqKeys(words);
    }
  }

  /** The count grows by one for a new id and stays for a known one. */
  lemma CountAfterAdd(documents: map<int, DocumentData>, id: int, data: DocumentData)
    ensures |Emplaced(documents, id, data)| == if id in documents then |documents| else |documents| + 1
  {
  }

  // ---------------------------------------------------------------------------------
  // The comparator as written

  /** The comparator passed to `sort`: for relevances closer than `EPS`, higher rating
      first, otherwise higher relevance first. */
  predicate CompareAsWritten(lhs: Document, rhs: Document)
  {
    if Ranking.Abs(lhs.relevance - rhs.relevance) < Ranking.EPS then lhs.rating > rhs.rating
    else lhs.relevance > rhs.relevance
  }

  /** Three documents that the comparator puts in a cycle: it is not transitive, so
      it is not the strict weak order `sort` requires. */
  lemma CompareAsWrittenCycle()
    ensures var a := Document(1, 0.0, 3);
      var b := Document(2, 0.0000006, 2);
      var c := Document(3, 0.0000012, 1);
      CompareAsWritten(a, b) && CompareAsWritten(b, c) && CompareAsWritten(c, a)
  {
  }

  /** The order the model sorts by agrees with the comparator as written whenever the
      relevances are equal or at least `EPS` apart. */
  lemma BeforeAgreesAwayFromTies(a: Document, b: Document)
    requires a.relevance == b.relevance || Ranking.Abs(a.relevance - b.relevance) >= Ranking.EPS
    ensures Ranking.Before(a, b) <==> CompareAsWritten(a, b)
  {
  }

  /** With equal relevances the higher rating comes first: the unit test with the
      averages 2, 6 and 9 expects the ratings in the order 9, 6, 2. */
  lemma EqualRelevanceByRating()
    ensures var a := Document(42, 0.0, 2);
      var b := Document(43, 0.0, 6);
      var c := Document(44, 0.0, 9);
      Ranking.SortByRank([a, b, c]) == [c, b, a]
  {
    var a := Document(42, 0.0, 2);
    var b := Document(43, 0.0, 6);
    var c := Document(44, 0.0, 9);
    assert [a, b, c][..2] == [a, b] && [a, b][..1] == [a] && [a][..0] == [];
    assert Ranking.SortByRank([a]) == [a];
    assert Ranking.SortByRank([a, b]) == [b, a];
  }
}
