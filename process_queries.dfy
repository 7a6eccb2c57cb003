/** `ProcessQueries` and `ProcessQueriesJoined` (process_queries.cpp:5-32): the
    default `FindTopDocuments` of every query, as one list per query or as one joined
    list. The parallel `transform` is run in query order; a query whose search throws
    ends the program, since the exception leaves the parallel algorithm. */
module Batch {
  import opened Types
  import opened Ranking
  import opened Server
  import InvertedIndex

  /** A search of one raw query. */
  type Search = string -> Result<seq<Document>>

  /** `FindTopDocuments(raw_query)` of a server in the given state. */
  function DefaultSearch(ix: InvertedIndex.Index, stopWords: set<string>, idf: IdfFunction): Search
  {
    query => DefaultTopDocuments(ix, stopWords, query, idf)
  }

  /** The results of the queries, one list per query; if any query fails, whichever
      it is, the batch terminates. */
  function Results(find: Search, queries: seq<string>): (r: Result<seq<seq<Document>>>)
    ensures r.Err? <==> exists i :: 0 <= i < |queries| && find(queries[i]).Err?
    ensures r.Err? ==> r.error == Terminated
    ensures r.Ok? ==> |r.value| == |queries|
    ensures r.Ok? ==> forall i :: 0 <= i < |queries| ==> find(queries[i]) == Ok(r.value[i])
  {
    if queries == [] then Ok([])
    else
      var init := queries[..|queries| - 1];
      var last := queries[|queries| - 1];
      assert forall i :: 0 <= i < |init| ==> init[i] == queries[i];
      match Results(find, init)
      case Err(_) => Err(Terminated)
      case Ok(lists) =>
        match find(last)
        case Err(_) => Err(Terminated)
        case Ok(found) => Ok(lists + [found])
  }

  /** One more query: its result joins the lists, or its failure terminates the batch. */
  lemma ResultsStep(find: Search, queries: seq<string>, i: nat, lists: seq<seq<Document>>)
    requires i < |queries| && Results(find, queries[..i]) == Ok(lists)
    ensures Results(find, queries[..i + 1]) ==
      match find(queries[i])
      case Err(_) => Err(Terminated)
      case Ok(found) => Ok(lists + [found])
  {
    assert queries[..i + 1][..i] == queries[..i];
  }

  /** The lists one after another. */
  function Flatten(lists: seq<seq<Document>>): seq<Document>
  {
    if lists == [] then [] else Flatten(lists[..|lists| - 1]) + lists[|lists| - 1]
  }

  /** The total number of entries. */
  function TotalLength(lists: seq<seq<Document>>): nat
  {
    if lists == [] then 0 else TotalLength(lists[..|lists| - 1]) + |lists[|lists| - 1]|
  }

  /** Joining keeps every entry: the joined length is the sum of the lengths. */
  lemma {:induction false} FlattenLength(lists: seq<seq<Document>>)
    ensures |Flatten(lists)| == TotalLength(lists)
  {
    if lists != [] {
      FlattenLength(lists[..|lists| - 1]);
    }
  }

  /** Joining follows query order and keeps each list's own order. */
  lemma {:induction false} FlattenAppend(a: seq<seq<Document>>, b: seq<seq<Document>>)
    ensures Flatten(a + b) == Flatten(a) + Flatten(b)
    decreases |b|
  {
    if b == [] {
      assert a + b == a;
    } else {
      var b' := b[..|b| - 1];
      assert (a + b)[..|a + b| - 1] == a + b';
      FlattenAppend(a, b');
    }
  }

  /** With at most `n` entries per list, at most `n` times the number of lists. */
  lemma {:induction false} TotalLengthBound(lists: seq<seq<Document>>, n: nat)
    requires forall i :: 0 <= i < |lists| ==> |lists[i]| <= n
    ensures TotalLength(lists) <= n * |lists|
  {
    if lists != [] {
      var init := lists[..|lists| - 1];
      assert forall i :: 0 <= i < |init| ==> init[i] == lists[i];
      TotalLengthBound(init, n);
    }
  }

  /** Every query contributes at most five documents to the joined list. */
  lemma JoinedAtMostFivePerQuery(ix: InvertedIndex.Index, stopWords: set<string>, queries: seq<string>, idf: IdfFunction)
    requires Results(DefaultSearch(ix, stopWords, idf), queries).Ok?
    ensures |Flatten(Results(DefaultSearch(ix, stopWords, idf), queries).value)| <= MAX_RESULT_DOCUMENT_COUNT * |queries|
  {
    var lists := Results(DefaultSearch(ix, stopWords, idf), queries).value;
    forall i | 0 <= i < |lists| ensures |lists[i]| <= MAX_RESULT_DOCUMENT_COUNT {
      TopDocumentsSpec(ix, stopWords, queries[i], StatusIs(Actual), idf);
    }
    TotalLengthBound(lists, MAX_RESULT_DOCUMENT_COUNT);
    FlattenLength(lists);
  }

  /** `ProcessQueries`: `FindTopDocuments(query)` for every query. The server is only
      read. */
  method ProcessQueries(server: SearchServer, queries: seq<string>, idf: IdfFunction)
    returns (r: Result<seq<seq<Document>>>)
    requires server.Valid()
    ensures r == Results(DefaultSearch(server.State(), server.stopWords, idf), queries)
  {
    ghost var find := DefaultSearch(server.State(), server.stopWords, idf);
    var lists: seq<seq<Document>> := [];
    for i := 0 to |queries|
      invariant Results(find, queries[..i]) == Ok(lists)
    {
      ResultsStep(find, queries, i, lists);
      var found := server.FindActualTopDocuments(queries[i], idf);
      assert found == find(queries[i]);
      if found.Err? {
        return Err(Terminated);
      }
      lists := lists + [found.value];
    }
    assert queries[..|queries|] == queries;
    r := Ok(lists);
  }

  /** The size loop of `ProcessQueriesJoined`, used to reserve the joined list. */
  method TotalSize(lists: seq<seq<Document>>) returns (size: nat)
    ensures size == TotalLength(lists)
  {
    size := 0;
    for i := 0 to |lists|
      invariant size == TotalLength(lists[..i])
    {
      assert lists[..i + 1][..i] == lists[..i];
      size := size + |lists[i]|;
    }
    assert lists[..|lists|] == lists;
  }

  /** The append loop of `ProcessQueriesJoined`: the lists one after another, into a
      list reserved at the total size. */
  method Join(lists: seq<seq<Document>>) returns (joined: seq<Document>)
    ensures joined == Flatten(lists)
    ensures |joined| == TotalLength(lists)
  {
    var size := TotalSize(lists);
    joined := [];
    for i := 0 to |lists|
      invariant joined == Flatten(lists[..i])
    {
      assert lists[..i + 1][..i] == lists[..i];
      joined := joined + lists[i];
    }
    assert lists[..|lists|] == lists;
    FlattenLength(lists);
    assert |joined| == size;
  }

  /** `ProcessQueriesJoined`: the lists of `ProcessQueries` appended in query order. */
  method ProcessQueriesJoined(server: SearchServer, queries: seq<string>, idf: IdfFunction)
    returns (r: Result<seq<Document>>)
    requires server.Valid()
    ensures var lists := Results(DefaultSearch(server.State(), server.stopWords, idf), queries);
      && (lists.Err? ==> r == Err(Terminated))
      && (lists.Ok? ==> r == Ok(Flatten(lists.value)) && |r.value| == TotalLength(lists.value))
  {
    var lists := ProcessQueries(server, queries, idf);
    if lists.Err? {
      return Err(Terminated);
    }
    var joined := Join(lists.value);
    r := Ok(joined);
  }
}
