# Search server in Dafny

This project models the search server of `cpp-search-server`, a small full-text
search engine over documents kept in memory. Each document has a non-negative id,
a text, a status (`ACTUAL`, `IRRELEVANT`, `BANNED`, `REMOVED`) and integer ratings.

The server does the following:

- It splits texts into words at single spaces.
- It drops stop words and rejects words that hold control characters.
- It stores for every word the term frequency of each document that contains it.
- It answers queries of plus words and `-`minus words with at most five documents,
  ranked by TF-IDF relevance and then by rating.

Besides searching, it can:

- match a single document against a query;
- remove a document;
- report a document's word frequencies;
- remove documents that have exactly the same set of words as a document with a
  lower id;
- run a batch of queries.

The model covers the current server (`search_server.h`, `search_server.cpp`,
`string_processing.cpp`, `process_queries.cpp`, `remove_duplicates.cpp`). It also
covers the earlier single-file server in `main.cpp`, which differs in several
behaviours, as module `Legacy`.

Modules, one per component:

- `Types`: document, status, record, the errors thrown, the document filter and the
  inverse-document-frequency function.
- `StringProcessing`: the single-space tokenizer.
- `StringOrder`: the order of `std::string`, sorted and deduplicated lists (`std::set`,
  `sort` + `unique`).
- `Ratings`: `ComputeAverageRating` with C++ truncating division.
- `Parsing`: word validation, stop-word filtering, query words and query parsing.
- `Frequencies`: term frequencies as occurrences over length.
- `InvertedIndex`: the server's four containers as a value, with their invariant,
  adding and removing documents.
- `Ranking`: relevance, `FindAllDocuments`, sorting by rank and truncation to five.
- `Matching`: `MatchDocument`, sequential and parallel.
- `Server`: the `SearchServer` class with its fields and methods.
- `Duplicates`: `RemoveDuplicates`.
- `Batch`: `ProcessQueries` and `ProcessQueriesJoined`.
- `Legacy`: the earlier server in `main.cpp`.

The class methods and the loops of the source are methods with loop invariants.
Each is proved equal to a specification function, and the properties are lemmas
about those functions. The errors of the source are `Result` values: `InvalidId`,
`InvalidWord`, `InvalidStopWord` and `InvalidQuery` stand for `invalid_argument`,
`OutOfRange` stands for the `out_of_range` of `map::at`, and `Terminated` stands for
`std::terminate`, called when an exception leaves a parallel algorithm.

Three behaviours of the code worth noting:

- `MatchDocument` of the current server reads the buckets of query words with
  `.at`, so a query word that was never indexed throws `out_of_range`. The model
  reports this as an error. It does not skip such words. In the parallel variant
  the `.at` runs inside `any_of(par)` and `copy_if(par)`, and an exception leaving a
  parallel algorithm calls `std::terminate`: the model reports `Terminated`.
- The current tokenizer keeps empty pieces, so two spaces in a row give an empty
  word. The earlier tokenizer drops them.
- `ComputeAverageRating` of the current server divides by the number of ratings
  without checking for zero, so `AddDocument` requires ratings. The earlier one
  returns 0 for no ratings.

## Model

| member | source | states |
|---|---|---|
| StringProcessing.Find | search-server/string_processing.cpp:8 | `find(' ')`: the position of the first occurrence, or the length (`npos`) when there is none; nothing before it matches |
| StringProcessing.SplitIntoWords | search-server/string_processing.cpp:5-17 | the find / push / `remove_prefix` loop returns exactly the single-space split `Split(text)` |
| StringProcessing.Split | search-server/string_processing.cpp:5-17 | the split always has at least one piece (an empty text gives one empty word) |
| StringProcessing.SplitEmpty | search-server/string_processing.cpp:9-11 | the empty text splits into one empty piece |
| StringProcessing.SplitHasNoSpaces | search-server/string_processing.cpp:8-9 | no piece contains a space |
| StringProcessing.SplitLength | search-server/string_processing.cpp:7-16 | there is exactly one more piece than there are spaces |
| StringProcessing.JoinSplit | search-server/string_processing.cpp:5-17 | joining the pieces with single spaces gives the text back (nothing is lost) |
| StringProcessing.SplitJoin | search-server/string_processing.cpp:5-17 | splitting a space-joined non-empty list of space-free pieces gives the list back |
| StringProcessing.CountCharAppend | search-server/string_processing.cpp:8 | occurrences of a character in a concatenation add up |
| StringProcessing.CountCharAbsent | search-server/string_processing.cpp:8 | a character that does not occur is counted zero times |
| StringProcessing.FindAfterPrefix | search-server/string_processing.cpp:8 | the first space after a space-free prefix is at the prefix's length |
| StringProcessing.FindAbsent | search-server/string_processing.cpp:10 | without the character, `find` gives `npos` (the length) |
| StringOrder.LessIrreflexive | search-server/search_server.h:73 | string `<` is irreflexive |
| StringOrder.LessTransitive | search-server/search_server.h:73 | string `<` is transitive |
| StringOrder.LessTrichotomy | search-server/search_server.h:73 | two strings are equal or ordered exactly one way |
| StringOrder.InsertUnique | search-server/main.cpp:195-198 | `set::insert`: the result is strictly sorted, holds the old elements and the new one, and grows by one only for a new element |
| StringOrder.LessIrreflexiveAll | search-server/main.cpp:195-198 | a string below every element of a sorted list is not in it |
| StringOrder.SortUnique | search-server/search_server.cpp:156-165 | `sort` then `unique`/`erase` gives a strictly sorted list with the same elements |
| StringOrder.SameElementsBothEmpty | search-server/search_server.cpp:156-165 | lists with the same elements are empty together |
| StringOrder.StrictlySortedUnique | search-server/search_server.cpp:156-165 | two strictly sorted lists with the same elements are equal, so any sort-then-unique of a list gives the same value |
| Ratings.TruncDiv | search-server/search_server.cpp:122-124 | C++ integer division by a positive count: rounds toward zero, with the remainder taking the dividend's sign |
| Ratings.AverageRating | search-server/search_server.cpp:122-124 | `ComputeAverageRating`: the `accumulate` sum divided by the count with C++ truncation; its bounds are proved in `Ratings.AverageWithinBounds` |
| Ratings.EuclidBounds | search-server/search_server.cpp:123 | for a non-negative dividend, Dafny's quotient has a remainder in `[0, b)` |
| Ratings.NegatedQuotient | search-server/search_server.cpp:123 | the negated quotient leaves a remainder in `(-b, 0]` |
| Ratings.SumBounds | search-server/search_server.cpp:123 | the `accumulate` sum lies between length × smallest and length × largest rating |
| Ratings.AverageWithinBounds | search-server/search_server.cpp:122-124 | the stored rating lies between the smallest and the largest rating |
| Ratings.TruncDivOdd | search-server/search_server.cpp:123 | truncating division is odd in the dividend (`-a / b == -(a / b)`), unlike Euclidean division |
| Parsing.IsValidWord | search-server/search_server.cpp:102-107 | a word is valid iff no character lies below the space |
| Parsing.MakeStopWords | search-server/search_server.h:116-124 | the constructor succeeds iff every non-empty stop word is valid; the set is then exactly the non-empty words; otherwise `invalid_argument` |
| Parsing.RemoveStopWords | search-server/search_server.cpp:115-117 | exactly the non-stop words are kept, never more than the input |
| Parsing.WordsNoStop | search-server/search_server.cpp:109-120 | fails with `InvalidWord` iff some piece is invalid, otherwise the non-stop pieces in order |
| Parsing.SplitIntoWordsNoStop | search-server/search_server.cpp:109-120 | the loop, which throws at the first invalid piece, returns `WordsNoStop` of the split text |
| Parsing.ParseQueryWord | search-server/search_server.cpp:126-140 | rejects exactly the empty word, a bare `-`, `--…` and words with control characters; otherwise restoring the `-` gives the text back, and `isStop` says whether the word is a stop word |
| Parsing.Malformed | search-server/search_server.cpp:127-138 | the words that `ParseQueryWord` rejects; the rejection is proved in `Parsing.ParseQueryWord` and `Parsing.ParseWords` |
| Parsing.AnyMalformedLast | search-server/search_server.cpp:144-145 | a list has a malformed word iff its prefix has one or its last word is malformed |
| Parsing.AddQueryWordClean | search-server/search_server.cpp:146-153 | adding a parsed word keeps every query word non-empty, valid, without `-` and not a stop word |
| Parsing.ParseWords | search-server/search_server.cpp:144-154 | the word loop fails with `InvalidQuery` iff some word is malformed; every word it keeps is clean; which words its lists hold is proved in `Parsing.ParseWordsLists` |
| Parsing.ParseWordsOnlyQueryWords | search-server/search_server.cpp:144-154 | nothing is invented: every word of the plus (minus) list is the data of a non-stop query word without (with) a `-` |
| Parsing.ParseWordsLists | search-server/search_server.cpp:144-154 | both directions: a word is in the plus (minus) list iff some query word parses to it as a non-stop word without (with) a `-` |
| Parsing.ParseWordsKeepsEveryWord | search-server/search_server.cpp:146-153 | every non-stop query word lands in the minus list when it had a `-`, otherwise in the plus list |
| Parsing.ParseQuery | search-server/search_server.cpp:142-168 | the push loop, followed by sort and unique when asked, returns `QueryOf(text, …)` |
| Parsing.QueryOf | search-server/search_server.cpp:142-168 | the value of `ParseQuery`; its failure iff a word is malformed and the cleanliness and order of its words are proved in `Parsing.ParseWords` and `Parsing.QueryWordsAreClean`, and the contents of its lists in `Parsing.QueryOfLists` |
| Parsing.QueryOfLists | search-server/search_server.cpp:142-168 | with or without duplicate removal, a word is in the plus (minus) list iff some word of the text parses to it as a non-stop word without (with) a `-` |
| Parsing.QueryWordsAreClean | search-server/search_server.cpp:142-168 | the words of a parsed query are clean; with duplicate removal both lists are strictly sorted |
| Frequencies.AccumulatedStep | search-server/search_server.cpp:24 | one `+= inv` changes only the entry of its word, creating it at `inv` |
| Frequencies.RepeatIsProduct | search-server/search_server.cpp:21-26 | adding `inv` `c` times gives `c · inv` |
| Frequencies.RepeatAdd | search-server/search_server.cpp:23-26 | repeated additions split over a sum of counts |
| Frequencies.ScaleBounds | search-server/search_server.cpp:21 | `c · (1 / n)` lies in `(0, 1]` for `0 < c ≤ n` |
| Frequencies.CountAbsent | search-server/search_server.cpp:23 | a word that does not occur is counted zero times |
| Frequencies.CountPresent | search-server/search_server.cpp:23 | a word that occurs is counted between once and the length |
| Frequencies.CountAtMostLength | search-server/search_server.cpp:23 | no word occurs more often than the length |
| Frequencies.TermFreqAt | search-server/search_server.cpp:21-26 | the term frequency of a word of the document is its occurrences times `1 / word count` |
| Frequencies.TermFreqs | search-server/search_server.cpp:21-26 | the term frequencies of a document; each is the word's share, in `(0, 1]`, and they add up to 1, as proved in `Frequencies.TermFreqInUnitInterval` and `Frequencies.TermFreqsSumToOne` |
| Frequencies.CountShareBounds | search-server/search_server.cpp:21 | the share of a word of the document lies in `(0, 1]` |
| Frequencies.TermFreqInUnitInterval | search-server/search_server.cpp:21-26 | every word of a document gets a term frequency equal to its share, which lies in `(0, 1]` |
| Frequencies.SumCountsAppend | search-server/search_server.cpp:23-26 | one more word adds one to the count sum exactly when it is among the distinct words |
| Frequencies.SumCountsInsert | search-server/search_server.cpp:23-26 | one more distinct word adds its own count to the count sum |
| Frequencies.CountsAddUp | search-server/search_server.cpp:23-26 | the counts of the distinct words add up to the document length |
| Frequencies.SumFreqsRepeat | search-server/search_server.cpp:23-26 | summing the accumulated frequencies over distinct words repeats `inv` as many times as the counts add up to |
| Frequencies.SumTermFreqs | search-server/search_server.cpp:21-26 | the term frequencies sum to `|words|` times `1 / |words|` |
| Frequencies.RepeatInverse | search-server/search_server.cpp:21 | `n` additions of `1 / n` give exactly 1 |
| Frequencies.TermFreqsSumToOne | search-server/search_server.cpp:21-26 | the term frequencies of one document add up to 1 |
| InvertedIndex.EmptyIsValid | search-server/search_server.h:73-77 | a new server satisfies the invariant: ids, records and the reverse map agree, and the postings mirror the reverse map |
| InvertedIndex.Valid | search-server/search_server.h:73-77 | the invariant of the four containers; it holds for a new server and is kept by adding and removing, as `InvertedIndex.EmptyIsValid`, `InvertedIndex.AddKeepsValid` and `InvertedIndex.RemoveKeepsValid` prove |
| InvertedIndex.AddDocument | search-server/search_server.cpp:13-29 | the value of `AddDocument`; its error cases are proved in `InvertedIndex.AddCheck`, its effect in `InvertedIndex.AddStoresFrequencies`, `InvertedIndex.AddRecordsDocument` and `InvertedIndex.AddKeepsOthers` |
| InvertedIndex.Added | search-server/search_server.cpp:21-28 | the index after a checked document is added; proved to keep the invariant in `InvertedIndex.AddedValid` |
| InvertedIndex.Removed | search-server/search_server.cpp:190-198 | the index after `RemoveDocument`; proved in `InvertedIndex.RemoveClears`, `InvertedIndex.RemoveKeepsOthers` and `InvertedIndex.RemoveIdempotent` |
| InvertedIndex.WordFrequencies | search-server/search_server.cpp:182-188 | the value of `GetWordFrequencies`; proved equal to the postings of the id in `InvertedIndex.WordFrequenciesArePostings` |
| InvertedIndex.AddCheck | search-server/search_server.cpp:15-17 | `AddDocument` fails iff the id is negative or taken (`InvalidId`, checked first) or some word is invalid (`InvalidWord`); otherwise it indexes the non-stop words |
| InvertedIndex.RemovedPar | search-server/search_server.cpp:204-225 | parallel removal throws `out_of_range` iff the id has no reverse entry |
| InvertedIndex.FreshIdHasNoPostings | search-server/search_server.cpp:15-17 | under the invariant an unused id has no postings and no frequencies |
| InvertedIndex.WithDocumentAt | search-server/search_server.cpp:23-26 | indexing a document adds its frequency to the bucket of each of its words, creates missing buckets, and leaves other buckets as they were |
| InvertedIndex.TermFreqKeys | search-server/search_server.cpp:23-26 | exactly the document's words get a frequency, so a document with words gets some |
| InvertedIndex.AddedMirrored | search-server/search_server.cpp:23-26 | after adding, the postings and the reverse map still hold the same `(word, id, tf)` triples |
| InvertedIndex.AddedValid | search-server/search_server.cpp:13-29 | adding a new id with clean words keeps the invariant |
| InvertedIndex.CheckedWordsIndexable | search-server/search_server.cpp:109-120 | words that passed the checks are valid and are not stop words |
| InvertedIndex.AddKeepsValid | search-server/search_server.cpp:13-29 | `AddDocument` keeps the invariant whenever it succeeds |
| InvertedIndex.AddedFrequency | search-server/search_server.cpp:21-26 | after adding, each word of the document has its share as frequency, in both maps |
| InvertedIndex.AddStoresFrequencies | search-server/search_server.cpp:13-29 | each word of a new document gets occurrences / word count in the postings and in the reverse map |
| InvertedIndex.AddRecordsDocument | search-server/search_server.cpp:27-28 | the record holds the average rating and the status, the id joins the id set, and the count grows by one |
| InvertedIndex.AddKeepsOthers | search-server/search_server.cpp:13-29 | adding leaves every other document's postings, frequencies and record unchanged |
| InvertedIndex.AddWithoutWords | search-server/search_server.cpp:21-28 | a document made only of stop words is recorded without frequencies or postings |
| InvertedIndex.RemoveKeepsValid | search-server/search_server.cpp:190-198 | removal keeps the invariant |
| InvertedIndex.RemoveClears | search-server/search_server.cpp:190-198 | afterwards the id is in no bucket, has no frequencies, record or id entry, and the count drops by one exactly when it was stored |
| InvertedIndex.RemoveKeepsOthers | search-server/search_server.cpp:190-198 | every other document keeps its postings, frequencies and record, and no word is dropped |
| InvertedIndex.RemoveUnknownIsNoop | search-server/search_server.cpp:190-198 | removing an unknown id changes nothing |
| InvertedIndex.RemoveIdempotent | search-server/search_server.cpp:190-198 | removing twice is removing once |
| InvertedIndex.RemoveParAgrees | search-server/search_server.cpp:204-225 | when the parallel removal does not throw, it leaves the same state as the sequential one |
| InvertedIndex.RemoveParThrowsForWordlessDocument | search-server/search_server.cpp:212 | a stored document whose words were all stop words makes the parallel removal throw |
| InvertedIndex.WordFrequenciesArePostings | search-server/search_server.cpp:182-188 | `GetWordFrequencies` lists exactly the words with a posting for the id, with the same frequencies |
| InvertedIndex.DocumentCountIsIdCount | search-server/search_server.cpp:42-44 | the number of records equals the number of ids that `begin()`/`end()` list |
| InvertedIndex.Minimum | search-server/search_server.cpp:174-176 | the first id of a non-empty ordered set is in it and is below all the others |
| InvertedIndex.MinimumExists | search-server/search_server.cpp:174-176 | a non-empty set of ids has a smallest element |
| InvertedIndex.Ascending | search-server/search_server.cpp:174-180 | iterating an ordered set lists its elements exactly, each once, in increasing order |
| InvertedIndex.AscendingUnique | search-server/search_server.cpp:174-180 | any increasing listing of a set is that iteration order |
| InvertedIndex.SortedIds | search-server/search_server.cpp:174-180 | the loop lists the ids in increasing order, exactly the elements of the set |
| Ranking.ValidPostingsKnown | search-server/search_server.h:207 | under the invariant every posting's id has a record, so `documents_.at` cannot throw |
| Ranking.Contribution | search-server/search_server.h:205-210 | `tf · idf` of one plus word for one document; summed by `Ranking.Relevance` |
| Ranking.Relevance | search-server/search_server.h:201-212 | the relevance of a document; the plus loop computes it, as `Ranking.AccumulateIsRelevance` proves |
| Ranking.Candidates | search-server/search_server.h:200-220 | the ids a query finds; characterised in `Ranking.CandidatesSpec` |
| Ranking.MatchedDocuments | search-server/search_server.h:197-228 | the value of `FindAllDocuments`; characterised in `Ranking.MatchedDocumentsSpec` |
| Ranking.AddFirstAt | search-server/search_server.h:206-211 | partway through a bucket, each visited id that passes the filter has gained `tf · idf` once, and the others are unchanged |
| Ranking.AddFirstIsAddPostings | search-server/search_server.h:206-211 | visiting a whole bucket in increasing id order gives `AddPostings` |
| Ranking.SameRelevance | search-server/search_server.h:200 | relevance maps with the same ids and values are equal |
| Ranking.AddFirstAtEnd | search-server/search_server.h:206-211 | one id after the whole bucket is visited: the same entry as `AddPostings` |
| Ranking.HasPostingLast | search-server/search_server.h:201-204 | a document has a posting for a word list iff it has one for the prefix or for the last word |
| Ranking.RelevanceWithoutPosting | search-server/search_server.h:201-212 | a document without a posting for any plus word has relevance zero |
| Ranking.AccumulateIsRelevance | search-server/search_server.h:201-212 | after the plus loop, the map holds exactly the documents that pass the filter and contain a plus word, each with the sum of `tf · idf` |
| Ranking.ExcludedIsHasPosting | search-server/search_server.h:213-220 | the ids erased by the minus loop are exactly those with a posting for a minus word |
| Ranking.ExcludedStep | search-server/search_server.h:213-220 | one more minus word erases the ids of its bucket, and nothing when it has no bucket |
| Ranking.FinalMapIsCandidates | search-server/search_server.h:200-220 | after both loops the map's keys are the found documents, each mapped to its relevance |
| Ranking.AddWordPostings | search-server/search_server.h:205-211 | the inner plus loop computes `AddPostings` |
| Ranking.EraseWordPostings | search-server/search_server.h:217-219 | the inner minus loop erases exactly the ids of the bucket |
| Ranking.EraseStep | search-server/search_server.h:218 | erasing one more id is erasing the grown set |
| Ranking.FindAllDocuments | search-server/search_server.h:197-228 | the sequential `FindAllDocuments` returns `MatchedDocuments` |
| Ranking.ListDocuments | search-server/search_server.h:222-227 | the last loop gives one row per map entry, in increasing id order, with the stored rating |
| Ranking.BeforeIsStrictOrder | search-server/search_server.h:139-143 | the rank order (higher relevance, then higher rating) is irreflexive, asymmetric and transitive, and its incomparability is transitive: a strict weak order |
| Ranking.Before | search-server/search_server.h:139-143 | the rank order used for sorting; proved a strict weak order in `Ranking.BeforeIsStrictOrder` |
| Ranking.CompareAsWritten | search-server/search_server.h:139-143 | the comparator as written; shown not to be a strict weak order in `Ranking.CompareAsWrittenNotAsymmetric` |
| Ranking.SortByRank | search-server/search_server.h:139-143 | sorting by rank; proved a rank-sorted permutation in `Ranking.SortByRankSorted` |
| Ranking.InsertByRankCount | search-server/search_server.h:139-143 | inserting by rank adds exactly the new document |
| Ranking.InsertByRankSorted | search-server/search_server.h:139-143 | inserting by rank keeps a rank-sorted list sorted |
| Ranking.SortByRankSorted | search-server/search_server.h:139-143 | sorting by rank gives a rank-sorted permutation of the input |
| Ranking.Truncate | search-server/search_server.h:144-146 | `resize(5)` when longer: the first `min(n, 5)` documents |
| Ranking.RowsAt | search-server/search_server.h:222-227 | one row per id, in the order of the ids |
| Ranking.MatchedDocumentsSpec | search-server/search_server.h:197-228 | `FindAllDocuments` lists each found document exactly once, with its relevance and rating, in increasing id order |
| Ranking.CandidatesSpec | search-server/search_server.h:197-228 | a document is found iff it is stored, passes the filter, has a posting for some plus word and has none for any minus word |
| Ranking.TruncatedSortSpec | search-server/search_server.h:139-146 | sorting and cutting keep `min(n, 5)` of the documents, in rank order, each at most as often as it was found (`multiset(r) <= multiset(matched)`) |
| Ranking.SubMultisetDistinctIds | search-server/search_server.h:139-146 | sorting and cutting a list of documents with increasing ids repeats no id |
| Ranking.TruncatedSortKeepsBest | search-server/search_server.h:139-146 | a document left out ranks before none of those kept |
| Ranking.TopDocumentsSpec | search-server/search_server.h:132-148 | `FindTopDocuments` fails with `InvalidQuery` iff the query is malformed; otherwise it returns at most five found documents with pairwise distinct ids, in rank order, each with its relevance and rating |
| Ranking.TopDocuments | search-server/search_server.h:132-148 | the value of `FindTopDocuments`; characterised in `Ranking.TopDocumentsSpec` and `Ranking.TopDocumentsKeepsBest` |
| Ranking.TopDocumentsKeepsBest | search-server/search_server.h:132-148 | `min(found, 5)` documents are returned, and a found document that is left out ranks before none of them |
| Ranking.StatusFilter | search-server/search_server.cpp:31-40 | the status overload returns only documents with that status; the overload without a filter returns only `ACTUAL` ones |
| Ranking.RemovedNeverFound | search-server/search_server.cpp:190-198 | a removed document is never returned by a search |
| Ranking.InsertAt | search-server/search_server.h:139-143 | the insertion point that the scan finds is where `InsertByRank` inserts |
| Ranking.SortDocuments | search-server/search_server.h:139-143 | the insertion sort returns `SortByRank`, a rank-sorted permutation |
| Ranking.FindTopDocuments | search-server/search_server.h:132-148 | parse with duplicate removal, find, sort, cut to five: returns `TopDocuments` |
| Ranking.CompareAsWrittenNotAsymmetric | search-server/search_server.h:139-143 | two documents each compare before the other under the comparator as written |
| Ranking.BeforeAgreesAwayFromTies | search-server/search_server.h:139-143 | the rank order agrees with the comparator whenever relevances differ by at least `EPS` |
| Matching.MinusHit | search-server/search_server.cpp:52-55 | `any_of` over the minus words: true iff a bucket holds the id; it throws `out_of_range` only for an unindexed word reached first, and never when all are indexed |
| Matching.PlusMatches | search-server/search_server.cpp:58-63 | `copy_if`: throws iff some plus word is not indexed; otherwise exactly the plus words whose bucket holds the id |
| Matching.PlusMatchesSorted | search-server/search_server.cpp:58-63 | filtering a strictly sorted list keeps it strictly sorted |
| Matching.MatchDocumentSpec | search-server/search_server.cpp:46-67 | malformed query → `InvalidQuery`; unknown id → error; otherwise the stored status and either no words (a minus word hits) or exactly the plus words present, sorted; success whenever the id is known and all words are indexed |
| Matching.MatchQuery | search-server/search_server.cpp:50-66 | the sequential matching of a parsed query; characterised through `Matching.MatchDocumentSpec` |
| Matching.MatchDocumentOf | search-server/search_server.cpp:46-72 | the value of the sequential `MatchDocument`; characterised in `Matching.MatchDocumentSpec` |
| Matching.MatchQueryPar | search-server/search_server.cpp:78-95 | the parallel matching of a parsed query, where a word without a bucket ends the program; related to the sequential one by `Matching.MatchDocumentParAgrees` and `Matching.MatchDocumentParTerminates` |
| Matching.MatchDocumentParOf | search-server/search_server.cpp:74-96 | the value of the parallel `MatchDocument`; related to the sequential one by the three lemmas below |
| Matching.SameQueryWords | search-server/search_server.cpp:76 | the parallel parse keeps duplicates, the sequential one sorts and deduplicates: the same words, so the same buckets and postings |
| Matching.MatchDocumentParAgrees | search-server/search_server.cpp:74-96 | when both succeed, the parallel variant returns the same words and status as the sequential one |
| Matching.MatchDocumentParSucceeds | search-server/search_server.cpp:74-96 | with a known id and all words indexed, both variants succeed and agree |
| Matching.MatchDocumentParTerminates | search-server/search_server.cpp:79-88 | where the sequential variant throws `out_of_range` for a query word without a bucket and the id is known, the parallel one ends the program |
| Matching.MatchDocumentParTerminatesOnlyOnMissingWord | search-server/search_server.cpp:79-88 | the parallel variant ends the program only where the sequential one fails, or where its `any_of` stops at a minus word that holds the id before reaching one without a bucket |
| Matching.MatchParsed | search-server/search_server.cpp:50-66 | the `any_of` / `copy_if` / `documents_.at` steps return `MatchQuery` |
| Matching.MatchDocument | search-server/search_server.cpp:46-72 | the sequential method returns `MatchDocumentOf` |
| Matching.MatchParsedPar | search-server/search_server.cpp:78-95 | the parallel `any_of` / `copy_if` / sort-unique / `documents_.at` steps return `MatchQueryPar` |
| Matching.MatchDocumentPar | search-server/search_server.cpp:74-96 | the parallel method returns `MatchDocumentParOf`: `InvalidQuery` from parsing, termination for a query word without a bucket, `out_of_range` for an unknown id |
| Server.PostingsStep | search-server/search_server.cpp:24 | one `word_to_document_freqs_[word][id] += inv` extends the indexed document by one occurrence |
| Server.PostingsStepAt | search-server/search_server.cpp:24 | the same step, word by word |
| Server.FreqsStep | search-server/search_server.cpp:23-26 | one more word adds `inv` to its running frequency |
| Server.ReverseStep | search-server/search_server.cpp:25 | one `document_ids_freqs_[id][word] += inv` extends the reverse entry, which is created on the first word |
| Server.IndexWords | search-server/search_server.cpp:23-26 | the indexing loop adds the document's term frequencies to the postings, and sets the reverse entry only when there are words |
| Server.EraseEverywhere | search-server/search_server.cpp:191-193 | the sequential removal loop erases the id from every bucket |
| Server.EraseFromWords | search-server/search_server.cpp:215-220 | the parallel removal loop erases the id from the buckets of its own words only |
| Server.SearchServer.constructor | search-server/search_server.h:116-124 | a server with the given stop words and no document satisfies the invariant |
| Server.SearchServer.Create | search-server/search_server.h:116-124 | the container constructor throws `invalid_argument` iff a non-empty stop word is invalid; otherwise a new, empty, valid server |
| Server.SearchServer.CreateFromText | search-server/search_server.cpp:5-11 | the text constructors take the pieces of the split text as stop words, and throw `invalid_argument` (`InvalidStopWord`) iff one of them is invalid |
| Server.SearchServer.AddDocument | search-server/search_server.cpp:13-29 | a failing call leaves the state unchanged and reports the error; otherwise the new state is `InvertedIndex.AddDocument`, and the invariant is kept |
| Server.SearchServer.RemoveDocument | search-server/search_server.cpp:190-202 | the new state is `Removed(old, id)`, and the invariant is kept |
| Server.SearchServer.RemoveDocumentPar | search-server/search_server.cpp:204-225 | throws and changes nothing for an id without a reverse entry; otherwise the new state is the sequential removal's |
| Server.SearchServer.Ids | search-server/search_server.cpp:174-180 | `begin()`/`end()` list the stored ids, in increasing order |
| Server.SearchServer.GetWordFrequencies | search-server/search_server.cpp:182-188 | exactly the words with a posting for the id, with their frequencies; empty for an unknown id |
| Server.SearchServer.GetDocumentCount | search-server/search_server.cpp:42-44 | the number of stored documents, which is the size of the id set |
| Server.SearchServer.FindTopDocuments | search-server/search_server.h:126-148 | returns `TopDocuments` of the current state |
| Server.SearchServer.FindTopDocumentsWithStatus | search-server/search_server.cpp:35-40 | returns `TopDocuments` with the status filter |
| Server.SearchServer.FindActualTopDocuments | search-server/search_server.cpp:31-33 | returns `TopDocuments` with the `ACTUAL` filter |
| Server.SearchServer.MatchDocument | search-server/search_server.cpp:46-72 | returns `MatchDocumentOf` of the current state |
| Server.SearchServer.MatchDocumentPar | search-server/search_server.cpp:74-96 | returns `MatchDocumentParOf` of the current state |
| Server.StopWordDocument | search-server/search_server.cpp:13-29 | a document made only of the stop word `in` is accepted without frequencies, and its parallel removal throws `out_of_range` |
| Duplicates.DuplicateIds | search-server/remove_duplicates.cpp:6-25 | the marked ids are stored documents |
| Duplicates.IsDuplicate | search-server/remove_duplicates.cpp:10-21 | a lower id has the same words; the scan marks exactly these, as `Duplicates.FindDuplicates` proves |
| Duplicates.Pruned | search-server/remove_duplicates.cpp:22-25 | the index after removing a set of ids; proved in `Duplicates.PrunedKeepsOthers`, `Duplicates.PrunedCount` and `Duplicates.PrunedDistinct` |
| Duplicates.SeenBefore | search-server/remove_duplicates.cpp:10-21 | scanning in increasing id order, a document's word set was seen before iff a lower id has the same words |
| Duplicates.ScanStep | search-server/remove_duplicates.cpp:14-20 | one visited id keeps the seen sets and the marked list exact, and keeps the list increasing |
| Duplicates.IncreasingSnoc | search-server/remove_duplicates.cpp:16 | appending an id above all marked ones keeps the list increasing |
| Duplicates.FindDuplicates | search-server/remove_duplicates.cpp:10-21 | the scan marks exactly the documents with the same words as a lower id, in increasing order |
| Duplicates.PrunedStep | search-server/remove_duplicates.cpp:22-25 | removing one more marked id prunes by one more id |
| Duplicates.PrunedNothing | search-server/remove_duplicates.cpp:22-25 | pruning nothing changes nothing |
| Duplicates.RemoveDuplicates | search-server/remove_duplicates.cpp:6-25 | removes exactly the duplicates, lists them in increasing order, and keeps the invariant |
| Duplicates.PrunedKeepsOthers | search-server/remove_duplicates.cpp:22-25 | a document that is not removed keeps its record, its words, its frequencies and its postings |
| Duplicates.PrunedCount | search-server/remove_duplicates.cpp:22-25 | only duplicates go, and the count drops by their number |
| Duplicates.PrunedDistinct | search-server/remove_duplicates.cpp:6-25 | afterwards no two documents have the same set of words |
| Duplicates.LowestSurvives | search-server/remove_duplicates.cpp:6-25 | in each group of documents with equal words the lowest id survives and all others are removed |
| Duplicates.WordlessDocumentsAreDuplicates | search-server/remove_duplicates.cpp:12-19 | of two documents without indexed words, the higher id is removed |
| Duplicates.RemoveDuplicatesIdempotent | search-server/remove_duplicates.cpp:6-25 | a second pass finds nothing and changes nothing |
| Batch.Results | search-server/process_queries.cpp:5-14 | the batch terminates iff some query fails, whichever it is; otherwise one list per query, each equal to that query's result |
| Batch.ResultsStep | search-server/process_queries.cpp:9-11 | one more query appends its list, or its failure terminates the batch |
| Batch.FlattenLength | search-server/process_queries.cpp:16-32 | the joined length is the sum of the list lengths |
| Batch.FlattenAppend | search-server/process_queries.cpp:27-29 | joining follows query order |
| Batch.TotalLengthBound | search-server/process_queries.cpp:20-23 | with at most `n` entries per list, the total is at most `n` per list |
| Batch.JoinedAtMostFivePerQuery | search-server/process_queries.cpp:16-32 | the joined result holds at most five documents per query |
| Batch.ProcessQueries | search-server/process_queries.cpp:5-14 | returns `Results` of the default search: the lists of `FindTopDocuments`, or termination when a query throws |
| Batch.TotalSize | search-server/process_queries.cpp:20-23 | the size loop computes the total length |
| Batch.Join | search-server/process_queries.cpp:25-29 | the append loop joins the lists in order, into the reserved size |
| Batch.ProcessQueriesJoined | search-server/process_queries.cpp:16-32 | the lists of `ProcessQueries` appended in query order, with the total length reserved; termination when `ProcessQueries` terminates |
| Legacy.ConcatStep | search-server/main.cpp:29-48 | concatenating one more word appends it |
| Legacy.ScanInvariant | search-server/main.cpp:32-45 | during the character loop every pushed word is non-empty and space-free, and the words spell the text read so far without its spaces |
| Legacy.WordsSpec | search-server/main.cpp:29-48 | the words are non-empty and space-free, and they spell the text without its spaces |
| Legacy.Words | search-server/main.cpp:29-48 | the value of the earlier `SplitIntoWords`; characterised in `Legacy.WordsSpec` and `Legacy.WordsAreNonEmptyPieces` |
| Legacy.SplitNoSpace | search-server/string_processing.cpp:5-17 | a space-free text splits into itself |
| Legacy.SplitCons | search-server/string_processing.cpp:5-17 | a space-free piece followed by a space comes first in the split |
| Legacy.ExtendedCons | search-server/string_processing.cpp:5-17 | one more character leaves the first of several pieces alone |
| Legacy.SplitSnoc | search-server/string_processing.cpp:5-17 | one more character extends the single-space split: a space opens an empty piece, any other character grows the last piece |
| Legacy.ScanIsSplit | search-server/main.cpp:32-45 | the loop's current word is the last piece of the single-space split, and its pushed words are the earlier non-empty pieces |
| Legacy.StepExtends | search-server/main.cpp:33-43 | one character keeps that correspondence |
| Legacy.WordsAreNonEmptyPieces | search-server/main.cpp:29-48 | the earlier tokenizer returns the pieces of the current one without the empty pieces |
| Legacy.SplitIntoWords | search-server/main.cpp:29-48 | the character loop returns `Words(text)` |
| Legacy.AverageRatingBounds | search-server/main.cpp:161-166 | no ratings give 0; otherwise the average lies between the smallest and largest rating and equals the current server's |
| Legacy.ComputeAverageRating | search-server/main.cpp:161-166 | the earlier `ComputeAverageRating`; characterised in `Legacy.AverageRatingBounds` |
| Legacy.AverageRatingExamples | search-server/main.cpp:445-469 | `{1,2,3}` → 2, `{5,6,7,8}` → 6, `{10,15,3}` → 9, and `{}` → 0 |
| Legacy.MergedNothing | search-server/main.cpp:75-77 | merging no frequencies leaves the postings alone |
| Legacy.Merged | search-server/main.cpp:74-77 | the postings after the earlier indexing loop; related to the current server by `Legacy.MergedFresh` and `Legacy.AddExistingAccumulates` |
| Legacy.Emplaced | search-server/main.cpp:78 | `documents_.emplace`; the first record is kept, as `Legacy.AddExistingAccumulates` proves |
| Legacy.MergedStep | search-server/main.cpp:76 | one `+= inv` on the postings is merging one more occurrence |
| Legacy.MergedStepAt | search-server/main.cpp:76 | the same, word by word |
| Legacy.MergedFresh | search-server/main.cpp:71-79 | for an id without postings, the earlier indexing equals the current one |
| Legacy.AccumulateWords | search-server/main.cpp:74-77 | the indexing loop adds the document's term frequencies on top of any earlier entry for the id |
| Legacy.AddKeepsKnown | search-server/main.cpp:71-79 | after adding, every posting's id still has a record |
| Legacy.ParseQueryWord | search-server/main.cpp:174-182 | one leading `-` marks a minus word and is removed, and putting it back gives the text; stop word iff the rest is one; nothing is rejected |
| Legacy.ParseWords | search-server/main.cpp:189-203 | the plus and minus sets are strictly sorted and hold exactly the words that some query word contributes |
| Legacy.ContributesStep | search-server/main.cpp:191-201 | one more query word adds exactly its own contribution |
| Legacy.QueryHasNoStopWords | search-server/main.cpp:189-203 | no query word is a stop word |
| Legacy.TopDocumentsSpec | search-server/main.cpp:86-103 | never fails: `min(found, 5)` found documents with pairwise distinct ids, in rank order, each with its relevance and rating, and none left out that ranks before one kept |
| Legacy.TopDocuments | search-server/main.cpp:86-103 | the value of the earlier `FindTopDocuments`; characterised in `Legacy.TopDocumentsSpec` |
| Legacy.StopWordQueryFindsNothing | search-server/main.cpp:337-357 | a query made only of stop words finds nothing |
| Legacy.Kept | search-server/main.cpp:117-124 | exactly the plus words whose bucket holds the id; unindexed words are skipped |
| Legacy.KeptSorted | search-server/main.cpp:117-124 | the matched words stay sorted and distinct |
| Legacy.MatchDocumentSpec | search-server/main.cpp:113-135 | fails only for an unknown id (`out_of_range`); otherwise the stored status, with no words when a minus word hits and otherwise exactly the plus words present, sorted |
| Legacy.MatchQuery | search-server/main.cpp:116-134 | the earlier matching of a parsed query; characterised through `Legacy.MatchDocumentSpec` |
| Legacy.KeepWords | search-server/main.cpp:117-124 | the plus loop returns `Kept` |
| Legacy.MatchParsed | search-server/main.cpp:116-134 | the plus loop, the minus loop that clears and breaks, and `documents_.at` return `MatchQuery` |
| Legacy.LegacySearchServer.constructor | search-server/main.cpp:143-145 | no stop words, no postings, no records; the invariant holds |
| Legacy.LegacySearchServer.SetStopWords | search-server/main.cpp:65-69 | the words of the text join the stop words, and the indexed documents are unchanged |
| Legacy.LegacySearchServer.SplitIntoWordsNoStop | search-server/main.cpp:151-159 | the non-stop words of the text, in order |
| Legacy.LegacySearchServer.AddDocument | search-server/main.cpp:71-79 | no checks: the frequencies are merged into the postings, and a record is stored only for a new id (`emplace`); the invariant is kept |
| Legacy.LegacySearchServer.ParseQuery | search-server/main.cpp:189-203 | returns the two word sets of `ParseWords` |
| Legacy.LegacySearchServer.FindTopDocuments | search-server/main.cpp:86-103 | returns `TopDocuments` of the current state |
| Legacy.LegacySearchServer.FindTopDocumentsWithStatus | search-server/main.cpp:81-84 | returns `TopDocuments` with the status filter |
| Legacy.LegacySearchServer.FindActualTopDocuments | search-server/main.cpp:105-107 | returns `TopDocuments` with the `ACTUAL` filter |
| Legacy.LegacySearchServer.MatchDocument | search-server/main.cpp:113-135 | returns `MatchDocumentOf` of the current state |
| Legacy.AddNewDocument | search-server/main.cpp:71-79 | a new document gets the same postings as in the current server: occurrences / word count per word |
| Legacy.AddExistingAccumulates | search-server/main.cpp:76-78 | adding a stored id again adds the new frequencies to the old ones and keeps the first record |
| Legacy.StopWordsNotIndexed | search-server/main.cpp:151-159 | stop words get no posting, and no bucket is created for them |
| Legacy.CountAfterAdd | search-server/main.cpp:109-111 | the count grows by one for a new id and stays the same for a known one |
| Legacy.CompareAsWrittenCycle | search-server/main.cpp:90-98 | three documents form a cycle under the comparator as written |
| Legacy.CompareAsWritten | search-server/main.cpp:90-98 | the earlier comparator as written; shown cyclic in `Legacy.CompareAsWrittenCycle` |
| Legacy.BeforeAgreesAwayFromTies | search-server/main.cpp:90-98 | the rank order agrees with the comparator when relevances are equal or at least `EPS` apart |
| Legacy.EqualRelevanceByRating | search-server/main.cpp:445-469 | with equal relevance the order is by rating, highest first: the averages 2, 6 and 9 of the ratings test come out as 9, 6, 2, the tie-break of the comparator at main.cpp:90-98 |

## Left out

- Floating point: relevances and frequencies are exact reals. The inverse document
  frequency `log(N / n)` (search_server.cpp:170-172) is a parameter of type
  `IdfFunction`, because Dafny has no logarithm. Results may differ from `double`
  rounding, and the model cannot say which relevances fall within `EPS`.
- Concurrency: the `par` policies (`FindAllDocuments` with `ConcurrentMap`,
  `for_each(par)`, `transform(par)`, `any_of(par)`, `copy_if(par)`, `THREAD_COUNT`)
  run in order. An exception that leaves a parallel algorithm ends the program; the
  model reports this as the error `Terminated` (`MatchDocumentPar`,
  `ProcessQueries`).
- Matching.MatchDocumentParOf: when one minus word's bucket holds the id and another
  minus word has no bucket, `any_of(par)` may stop before reaching the unindexed
  word and return no words, or reach it and end the program. The model always
  takes the execution that visits every minus word, so it ends the program there.
- `concurrent_map.h` is not part of this model. Its map is a `map<int, real>` that
  the loops update one entry at a time.
- The `words` deque (search_server.h:78) that owns the document texts behind
  `string_view` keys is not modelled. Words are values, so the lifetime of views is
  not modelled.
- The console wrappers `AddDocument`, `FindTopDocuments` and `MatchDocuments`
  (search_server.cpp:227-260) and the `cout` line in `RemoveDuplicates` only print.
  `ReadLine` and `ReadLineWithNumber` in main.cpp read the console.
- The unit tests in main.cpp and test_example_functions are not executable code
  here. Several of their expectations are lemmas: `AverageRatingExamples`,
  `EqualRelevanceByRating` and `StopWordQueryFindsNothing`.
- Ratings.AverageRating: 32-bit overflow of `accumulate` and of the rating sum is
  not modelled, because integers are unbounded.
- Ranking.SortByRank: `std::sort` with the source's comparator has no specified
  order for ties, and with a comparator that is not a strict weak order its
  behaviour is undefined. The model uses a stable insertion sort by the strict weak
  order `Before`, which agrees with the comparator as written whenever relevances
  are at least `EPS` apart (see Findings).
- Legacy.TopDocuments: uses the same `Before` order, so ties within `EPS` are
  ordered by exact relevance and not by rating.
- Server.SearchServer.AddDocument: requires at least one rating when the checks
  pass. The source divides by zero there, which is undefined behaviour.
- The template constructor over any string container is modelled with a
  sequence of words.
- Legacy: the earlier server keeps no reverse map and no id set. Its state is viewed
  as an index with both empty, and the ranking is shared with the current server.

## Findings

| source | as written | input that shows it | evidently intended | confidence | as-written member | corrected member |
|---|---|---|---|---|---|---|
| search-server/search_server.h:139-143 | the comparator orders by `relevance >`, or by rating when relevances are within `EPS`; two documents can each come before the other, so it is not a strict weak order and `std::sort` has undefined behaviour | documents (id 1, relevance 0.0, rating 3) and (id 2, relevance 0.0000005, rating 2) | a strict weak order: relevance first, then rating | not executed | Ranking.CompareAsWrittenNotAsymmetric | Ranking.BeforeIsStrictOrder |
| search-server/main.cpp:90-98 | the earlier comparator compares by rating when relevances are within `EPS`, else by relevance; closeness is not transitive, so three documents form a cycle | (1, 0.0, 3), (2, 0.0000006, 2), (3, 0.0000012, 1): a before b, b before c, c before a | a strict weak order: relevance first, then rating | not executed | Legacy.CompareAsWrittenCycle | Ranking.BeforeIsStrictOrder |
