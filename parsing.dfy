/** Word validation, stop-word filtering and query parsing of the current server
    (`IsValidWord`, `SplitIntoWordsNoStop`, `ParseQueryWord`, `ParseQuery` and the
    stop-word check of the constructor). */
module Parsing {
  import opened Types
  import opened StringProcessing
  import opened StringOrder

  /** `IsValidWord`: no character below the space (code 0x20). */
  predicate IsValidWord(word: string)
    ensures IsValidWord(word) <==> forall i :: 0 <= i < |word| ==> word[i] >= ' '
  {
    word == [] || (word[0] >= ' ' && IsValidWord(word[1..]))
  }

  /** The stop-word set the constructor keeps: the non-empty words given
      (`MakeUniqueNonEmptyStrings`), or `InvalidStopWord` when one of them holds a
      control character. */
  function MakeStopWords(words: seq<string>): (r: Result<set<string>>)
    ensures r.Ok? <==> forall w :: w in words && w != "" ==> IsValidWord(w)
    ensures r.Ok? ==> forall w :: w in r.value <==> w in words && w != ""
    ensures r.Err? ==> r.error == InvalidStopWord
  {
    var kept := set w | w in words && w != "";
    if forall w :: w in kept ==> IsValidWord(w) then Ok(kept) else Err(InvalidStopWord)
  }

  /** The words of `pieces` that are not stop words, in their order. */
  function RemoveStopWords(pieces: seq<string>, stopWords: set<string>): (r: seq<string>)
    ensures forall w :: w in r <==> w in pieces && w !in stopWords
    ensures |r| <= |pieces|
  {
    if pieces == [] then []
    else
      var init := RemoveStopWords(pieces[..|pieces| - 1], stopWords);
      var last := pieces[|pieces| - 1];
      assert pieces == pieces[..|pieces| - 1] + [last];
      if last in stopWords then init else init + [last]
  }

  /** Some piece holds a control character. */
  predicate AnyInvalid(pieces: seq<string>)
  {
    exists i :: 0 <= i < |pieces| && !IsValidWord(pieces[i])
  }

  /** What `SplitIntoWordsNoStop` returns for the pieces of a text: `InvalidWord` as
      soon as a piece holds a control character, otherwise the pieces that are not
      stop words. */
  function WordsNoStop(pieces: seq<string>, stopWords: set<string>): (r: Result<seq<string>>)
    ensures r.Err? <==> AnyInvalid(pieces)
    ensures r.Err? ==> r.error == InvalidWord
    ensures r.Ok? ==> r.value == RemoveStopWords(pieces, stopWords)
  {
    if pieces == [] then Ok([])
    else
      var init := pieces[..|pieces| - 1];
      var last := pieces[|pieces| - 1];
      assert forall i :: 0 <= i < |init| ==> init[i] == pieces[i];
      match WordsNoStop(init, stopWords)
      case Err(e) => Err(e)
      case Ok(ws) =>
        if !IsValidWord(last) then Err(InvalidWord)
        else Ok(if last in stopWords then ws else ws + [last])
  }

  /** The loop of `SplitIntoWordsNoStop`: throw on an invalid piece, keep the pieces
      that are not stop words. */
  method SplitIntoWordsNoStop(text: string, stopWords: set<string>) returns (r: Result<seq<string>>)
    ensures r == WordsNoStop(Split(text), stopWords)
  {
    var pieces := SplitIntoWords(text);
    var words: seq<string> := [];
    for i := 0 to |pieces|
      invariant WordsNoStop(pieces[..i], stopWords) == Ok(words)
    {
      var word := pieces[i];
      assert pieces[..i + 1][..i] == pieces[..i];
      if !IsValidWord(word) {
        assert WordsNoStop(pieces[..i + 1], stopWords).Err?;
        assert !IsValidWord(pieces[i]);
        return Err(InvalidWord);
      }
      if word !in stopWords {
        words := words + [word];
      }
    }
    assert pieces[..|pieces|] == pieces;
    r := Ok(words);
  }

  /** A parsed query word: the word without its `-`, whether it had one, and whether it
      is a stop word. */
  datatype QueryWord = QueryWord(data: string, isMinus: bool, isStop: bool)

  /** `qw` is a reading of `text`: putting the `-` back gives the text, the word is
      non-empty, has no second `-` and no control character, and is flagged as a stop
      word exactly when it is one. */
  predicate ReadsAs(qw: QueryWord, text: string, stopWords: set<string>)
  {
    && (if qw.isMinus then "-" else "") + qw.data == text
    && qw.data != "" && qw.data[0] != '-' && IsValidWord(qw.data)
    && (qw.isStop <==> qw.data in stopWords)
  }

  /** The query words `ParseQueryWord` rejects: the empty word, a bare `-`, a word
      starting with `--` and a word holding a control character. */
  predicate Malformed(text: string)
  {
    || text == ""
    || text == "-"
    || (|text| >= 2 && text[0] == '-' && text[1] == '-')
    || !IsValidWord(text)
  }

  /** `ParseQueryWord`: a malformed word is rejected; otherwise one leading `-` marks a
      minus word and is removed. */
  function ParseQueryWord(text: string, stopWords: set<string>): (r: Result<QueryWord>)
    ensures r.Err? <==> Malformed(text)
    ensures r.Err? ==> r.error == InvalidQuery
    ensures r.Ok? ==> ReadsAs(r.value, text, stopWords)
  {
    if text == "" then Err(InvalidQuery)
    else
      var isMinus := text[0] == '-';
      var word := if isMinus then text[1..] else text;
      assert text == (if isMinus then "-" else "") + word;
      if word == "" || word[0] == '-' || !IsValidWord(word) then Err(InvalidQuery)
      else Ok(QueryWord(word, isMinus, word in stopWords))
  }

  /** The plus and minus words of a query, in the order of the text or, once
      deduplicated, sorted and distinct. */
  datatype Query = Query(plusWords: seq<string>, minusWords: seq<string>)

  /** One parsed word joins the query: stop words are dropped, the rest go to the
      minus or the plus list. */
  function AddQueryWord(q: Query, qw: QueryWord): Query
  {
    if qw.isStop then q
    else if qw.isMinus then q.(minusWords := q.minusWords + [qw.data])
    else q.(plusWords := q.plusWords + [qw.data])
  }

  /** What a word must be to stand in a parsed query. */
  predicate CleanQueryWord(w: string, stopWords: set<string>)
  {
    w != "" && w[0] != '-' && IsValidWord(w) && w !in stopWords
  }

  predicate AllClean(ws: seq<string>, stopWords: set<string>)
  {
    forall w :: w in ws ==> CleanQueryWord(w, stopWords)
  }

  /** Some word of the list is malformed. */
  predicate AnyMalformed(words: seq<string>)
  {
    exists i :: 0 <= i < |words| && Malformed(words[i])
  }

  lemma AnyMalformedLast(words: seq<string>)
    requires words != []
    ensures AnyMalformed(words) <==>
      AnyMalformed(words[..|words| - 1]) || Malformed(words[|words| - 1])
  {
    var init := words[..|words| - 1];
    if AnyMalformed(words) {
      var i :| 0 <= i < |words| && Malformed(words[i]);
      if i < |init| {
        assert init[i] == words[i];
      }
    }
    if AnyMalformed(init) {
      var i :| 0 <= i < |init| && Malformed(init[i]);
      assert words[i] == init[i];
    }
  }

  lemma AddQueryWordClean(q: Query, qw: QueryWord, text: string, stopWords: set<string>)
    requires AllClean(q.plusWords, stopWords) && AllClean(q.minusWords, stopWords)
    requires ReadsAs(qw, text, stopWords)
    ensures AllClean(AddQueryWord(q, qw).plusWords, stopWords)
    ensures AllClean(AddQueryWord(q, qw).minusWords, stopWords)
  {
  }

  /** The query built word by word from the pieces of the text; the first malformed
      word makes the whole query fail, and no stop word gets through. */
  function ParseWords(words: seq<string>, stopWords: set<string>): (r: Result<Query>)
    ensures r.Err? <==> AnyMalformed(words)
    ensures r.Err? ==> r.error == InvalidQuery
    ensures r.Ok? ==> AllClean(r.value.plusWords, stopWords) && AllClean(r.value.minusWords, stopWords)
  {
    if words == [] then Ok(Query([], []))
    else
      var init := words[..|words| - 1];
      var last := words[|words| - 1];
      AnyMalformedLast(words);
      match ParseWords(init, stopWords)
      case Err(e) => Err(e)
      case Ok(q) =>
        match ParseQueryWord(last, stopWords)
        case Err(e) => Err(e)
        case Ok(qw) =>
          AddQueryWordClean(q, qw, last, stopWords);
          Ok(AddQueryWord(q, qw))
  }

  /** Nothing is lost: every non-stop word of the text lands in the plus or the minus
      list, according to its `-`. */
  lemma {:induction false} ParseWordsKeepsEveryWord(words: seq<string>, stopWords: set<string>, i: nat)
    requires ParseWords(words, stopWords).Ok?
    requires i < |words|
    ensures var qw := ParseQueryWord(words[i], stopWords).value;
      var q := ParseWords(words, stopWords).value;
      !qw.isStop ==> (if qw.isMinus then qw.data in q.minusWords else qw.data in q.plusWords)
  {
    var init := words[..|words| - 1];
    AnyMalformedLast(words);
    var q := ParseWords(init, stopWords).value;
    var last := ParseQueryWord(words[|words| - 1], stopWords).value;
    assert ParseWords(words, stopWords).value == AddQueryWord(q, last);
    if i < |words| - 1 {
      assert init[i] == words[i];
      ParseWordsKeepsEveryWord(init, stopWords, i);
    }
  }

  /** `text` parses as the non-stop word `x`, a minus word exactly when `minus`
      holds. */
  predicate ParsesTo(text: string, x: string, minus: bool, stopWords: set<string>)
  {
    ParseQueryWord(text, stopWords) == Ok(QueryWord(x, minus, false))
  }

  /** Some word of `words` parses as the non-stop word `x` of the given sign. */
  ghost predicate FromQueryWord(words: seq<string>, x: string, minus: bool, stopWords: set<string>)
  {
    exists i :: 0 <= i < |words| && ParsesTo(words[i], x, minus, stopWords)
  }

  /** A word found among the first words is found among all of them. */
  lemma FromQueryWordPrefix(words: seq<string>, n: nat, x: string, minus: bool, stopWords: set<string>)
    requires n <= |words| && FromQueryWord(words[..n], x, minus, stopWords)
    ensures FromQueryWord(words, x, minus, stopWords)
  {
    var i :| 0 <= i < n && ParsesTo(words[..n][i], x, minus, stopWords);
    var w := words[..n][i];
    assert w == words[i];
    assert ParsesTo(w, x, minus, stopWords);
  }

  /** Nothing is invented: a word of the plus (minus) list comes from a non-stop query
      word without (with) a `-`. */
  lemma {:induction false} ParseWordsOnlyQueryWords(words: seq<string>, stopWords: set<string>, x: string)
    requires ParseWords(words, stopWords).Ok?
    ensures var q := ParseWords(words, stopWords).value;
      && (x in q.plusWords ==> FromQueryWord(words, x, false, stopWords))
      && (x in q.minusWords ==> FromQueryWord(words, x, true, stopWords))
  {
    if words != [] {
      var n := |words| - 1;
      var init := words[..n];
      AnyMalformedLast(words);
      var q := ParseWords(init, stopWords).value;
      var last := ParseQueryWord(words[n], stopWords).value;
      assert ParseWords(words, stopWords).value == AddQueryWord(q, last);
      ParseWordsOnlyQueryWords(init, stopWords, x);
      if x in q.plusWords {
        FromQueryWordPrefix(words, n, x, false, stopWords);
      }
      if x in q.minusWords {
        FromQueryWordPrefix(words, n, x, true, stopWords);
      }
      if !last.isStop && last.data == x {
        assert ParsesTo(words[n], x, last.isMinus, stopWords);
      }
    }
  }

  /** The lists of a parsed query hold exactly the non-stop query words of their sign. */
  lemma ParseWordsLists(words: seq<string>, stopWords: set<string>, x: string)
    requires ParseWords(words, stopWords).Ok?
    ensures var q := ParseWords(words, stopWords).value;
      && (x in q.plusWords <==> FromQueryWord(words, x, false, stopWords))
      && (x in q.minusWords <==> FromQueryWord(words, x, true, stopWords))
  {
    ParseWordsOnlyQueryWords(words, stopWords, x);
    if FromQueryWord(words, x, false, stopWords) {
      var i :| 0 <= i < |words| && ParsesTo(words[i], x, false, stopWords);
      ParseWordsKeepsEveryWord(words, stopWords, i);
    }
    if FromQueryWord(words, x, true, stopWords) {
      var i :| 0 <= i < |words| && ParsesTo(words[i], x, true, stopWords);
      ParseWordsKeepsEveryWord(words, stopWords, i);
    }
  }

  /** The value of `ParseQuery(text, remove_duplicates)`. */
  function QueryOf(text: string, stopWords: set<string>, removeDuplicates: bool): Result<Query>
  {
    match ParseWords(Split(text), stopWords)
    case Err(e) => Err(e)
    case Ok(q) =>
      if removeDuplicates then Ok(Query(SortUnique(q.plusWords), SortUnique(q.minusWords)))
      else Ok(q)
  }

  /** `ParseQuery`: push every parsed word onto its list, then, when asked, sort each
      list and erase the duplicates. */
  method ParseQuery(text: string, stopWords: set<string>, removeDuplicates: bool)
    returns (r: Result<Query>)
    ensures r == QueryOf(text, stopWords, removeDuplicates)
  {
    var words := SplitIntoWords(text);
    var plus: seq<string> := [];
    var minus: seq<string> := [];
    for i := 0 to |words|
      invariant ParseWords(words[..i], stopWords) == Ok(Query(plus, minus))
    {
      var qw := ParseQueryWord(words[i], stopWords);
      if qw.Err? {
        assert ParseWords(words, stopWords).Err? by {
          assert Malformed(words[i]);
        }
        return Err(qw.error);
      }
      assert ParseWords(words[..i + 1], stopWords) == Ok(AddQueryWord(Query(plus, minus), qw.value)) by {
        assert words[..i + 1][..i] == words[..i];
        AnyMalformedLast(words[..i + 1]);
      }
      if !qw.value.isStop {
        if qw.value.isMinus {
          minus := minus + [qw.value.data];
        } else {
          plus := plus + [qw.value.data];
        }
      }
    }
    assert words[..|words|] == words;
    if removeDuplicates {
      minus := SortUnique(minus);
      plus := SortUnique(plus);
    }
    r := Ok(Query(plus, minus));
  }

  /** Every word of a parsed query is non-empty, free of control characters, has no
      leading `-` and is not a stop word; deduplicated lists are sorted and distinct. */
  lemma QueryWordsAreClean(text: string, stopWords: set<string>, removeDuplicates: bool)
    requires QueryOf(text, stopWords, removeDuplicates).Ok?
    ensures var q := QueryOf(text, stopWords, removeDuplicates).value;
      AllClean(q.plusWords, stopWords) && AllClean(q.minusWords, stopWords)
    ensures removeDuplicates ==>
      var q := QueryOf(text, stopWords, removeDuplicates).value;
      StrictlySorted(q.plusWords) && StrictlySorted(q.minusWords)
  {
  }

  /** With or without duplicate removal, the plus (minus) list of a parsed query holds
      exactly the non-stop words of the text without (with) a `-`. */
  lemma QueryOfLists(text: string, stopWords: set<string>, removeDuplicates: bool, x: string)
    requires QueryOf(text, stopWords, removeDuplicates).Ok?
    ensures var q := QueryOf(text, stopWords, removeDuplicates).value;
      && (x in q.plusWords <==> FromQueryWord(Split(text), x, false, stopWords))
      && (x in q.minusWords <==> FromQueryWord(Split(text), x, true, stopWords))
  {
    ParseWordsLists(Split(text), stopWords, x);
  }
}
