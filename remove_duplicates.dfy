/** `RemoveDuplicates` (remove_duplicates.cpp:6-26): documents are visited in
    increasing id order, and one whose set of indexed words was already seen is marked;
    the marked documents are then removed. */
module Duplicates {
  import opened Types
  import opened InvertedIndex
  import opened Server

  /** The words a document is indexed under, without their frequencies. */
  function Vocabulary(ix: Index, id: int): set<string>
  {
    WordFrequencies(ix, id).Keys
  }

  /** A stored document with a lower id has exactly the same words. */
  predicate IsDuplicate(ix: Index, id: int)
  {
    exists other :: other in ix.documents && other < id && Vocabulary(ix, other) == Vocabulary(ix, id)
  }

  /** The documents `RemoveDuplicates` marks. */
  function DuplicateIds(ix: Index): (dups: set<int>)
    ensures dups <= ix.documents.Keys
  {
    set id | id in ix.documents && IsDuplicate(ix, id)
  }

  /** The index once every id of `gone` has been removed. */
  function Pruned(ix: Index, gone: set<int>): Index
  {
    Index(
      map w | w in ix.wordToDocumentFreqs :: ix.wordToDocumentFreqs[w] - gone,
      ix.documents - gone,
      ix.documentIdsFreqs - gone,
      ix.documentIds - gone)
  }

  /** The ids among `ids` whose words some id before them already had. */
  ghost predicate MarksDuplicates(dups: seq<int>, ix: Index, ids: seq<int>)
  {
    forall x :: x in dups <==> x in ids && IsDuplicate(ix, x)
  }

  /** `seen` holds exactly the vocabularies of `ids`. */
  ghost predicate SeenExactly(seen: set<set<string>>, ix: Index, ids: seq<int>)
  {
    forall v :: v in seen <==> exists x :: x in ids && Vocabulary(ix, x) == v
  }

  /** Scanning in increasing order: a document's words were seen before it exactly when
      it is a duplicate. */
  lemma SeenBefore(ix: Index, ids: seq<int>, i: nat, seen: set<set<string>>)
    requires Increasing(ids) && forall x :: x in ids <==> x in ix.documents
    requires i < |ids|
    requires SeenExactly(seen, ix, ids[..i])
    ensures Vocabulary(ix, ids[i]) in seen <==> IsDuplicate(ix, ids[i])
  {
    var id := ids[i];
    if IsDuplicate(ix, id) {
      var other :| other in ix.documents && other < id && Vocabulary(ix, other) == Vocabulary(ix, id);
      var k :| 0 <= k < |ids| && ids[k] == other;
      assert k < i;
      assert other in ids[..i];
    }
    if Vocabulary(ix, id) in seen {
      var other :| other in ids[..i] && Vocabulary(ix, other) == Vocabulary(ix, id);
      var k :| 0 <= k < i && ids[..i][k] == other;
      assert other in ix.documents && other < id;
    }
  }

  /** One visited id: its words join the seen sets, or it is marked when they were
      already there. */
  lemma ScanStep(ix: Index, ids: seq<int>, i: nat, seen: set<set<string>>, dups: seq<int>)
    requires Increasing(ids) && forall x :: x in ids <==> x in ix.documents
    requires i < |ids|
    requires SeenExactly(seen, ix, ids[..i]) && MarksDuplicates(dups, ix, ids[..i])
    requires Increasing(dups) && forall x :: x in dups ==> x in ids[..i]
    ensures var v := Vocabulary(ix, ids[i]);
      var seen' := if v in seen then seen else seen + {v};
      var dups' := if v in seen then dups + [ids[i]] else dups;
      && SeenExactly(seen', ix, ids[..i + 1]) && MarksDuplicates(dups', ix, ids[..i + 1])
      && Increasing(dups') && forall x :: x in dups' ==> x in ids[..i + 1]
  {
    var id := ids[i];
    SeenBefore(ix, ids, i, seen);
    assert ids[..i + 1] == ids[..i] + [id];
    SeenStep(seen, ix, ids[..i], id);
    MarksStep(dups, ix, ids[..i], id);
    forall x | x in dups ensures x < id {
      var k :| 0 <= k < i && ids[..i][k] == x;
    }
    IncreasingSnoc(dups, id);
  }

  /** The seen vocabularies after one more id. */
  lemma SeenStep(seen: set<set<string>>, ix: Index, ids: seq<int>, id: int)
    requires SeenExactly(seen, ix, ids)
    ensures var v := Vocabulary(ix, id);
      SeenExactly(if v in seen then seen else seen + {v}, ix, ids + [id])
  {
    var v := Vocabulary(ix, id);
    var seen' := if v in seen then seen else seen + {v};
    forall u ensures u in seen' <==> exists x :: x in ids + [id] && Vocabulary(ix, x) == u {
      if u in seen {
        var x :| x in ids && Vocabulary(ix, x) == u;
        assert x in ids + [id];
      } else if u == v {
        assert id in ids + [id];
      }
    }
  }

  /** The marked ids after one more id. */
  lemma MarksStep(dups: seq<int>, ix: Index, ids: seq<int>, id: int)
    requires MarksDuplicates(dups, ix, ids)
    ensures MarksDuplicates(if IsDuplicate(ix, id) then dups + [id] else dups, ix, ids + [id])
  {
  }

  /** An id above every element can be appended to an increasing sequence. */
  lemma IncreasingSnoc(s: seq<int>, id: int)
    requires Increasing(s) && forall x :: x in s ==> x < id
    ensures Increasing(s + [id])
  {
    forall a, b | 0 <= a < b < |s| + 1 ensures (s + [id])[a] < (s + [id])[b] {
      if b == |s| {
        assert s[a] in s;
      }
    }
  }

  /** The scan of `RemoveDuplicates`: the marked ids, in increasing order. */
  method FindDuplicates(server: SearchServer) returns (dups: seq<int>)
    requires server.Valid()
    ensures Increasing(dups)
    ensures Enumerates(dups, DuplicateIds(server.State()))
  {
    ghost var ix := server.State();
    var ids := server.Ids();
    var seen: set<set<string>> := {};
    dups := [];
    for i := 0 to |ids|
      invariant SeenExactly(seen, ix, ids[..i]) && MarksDuplicates(dups, ix, ids[..i])
      invariant Increasing(dups) && forall x :: x in dups ==> x in ids[..i]
    {
      var id := ids[i];
      var words := server.GetWordFrequencies(id).Keys;
      assert words == Vocabulary(ix, id);
      ScanStep(ix, ids, i, seen, dups);
      if words in seen {
        dups := dups + [id];
      } else {
        seen := seen + {words};
      }
    }
    assert ids[..|ids|] == ids;
    ScanDone(ix, ids, dups);
  }

  /** A scan over all stored ids marks exactly the duplicates. */
  lemma ScanDone(ix: Index, ids: seq<int>, dups: seq<int>)
    requires forall x :: x in ids <==> x in ix.documents
    requires MarksDuplicates(dups, ix, ids)
    ensures Enumerates(dups, DuplicateIds(ix))
  {
  }

  /** Removing one more id from a pruned index prunes it by one more id. */
  lemma PrunedStep(ix: Index, gone: set<int>, id: int)
    ensures InvertedIndex.Removed(Pruned(ix, gone), id) == Pruned(ix, gone + {id})
  {
    var p := Pruned(ix, gone).wordToDocumentFreqs;
    var lhs := InvertedIndex.Removed(Pruned(ix, gone), id).wordToDocumentFreqs;
    var rhs := Pruned(ix, gone + {id}).wordToDocumentFreqs;
    forall w | w in lhs ensures lhs[w] == rhs[w] {
      assert ix.wordToDocumentFreqs[w] - gone - {id} == ix.wordToDocumentFreqs[w] - (gone + {id});
    }
    assert lhs == rhs;
  }

  lemma PrunedNothing(ix: Index)
    ensures Pruned(ix, {}) == ix
  {
    var p := Pruned(ix, {}).wordToDocumentFreqs;
    forall w | w in p ensures p[w] == ix.wordToDocumentFreqs[w] {
      assert ix.wordToDocumentFreqs[w] - {} == ix.wordToDocumentFreqs[w];
    }
    assert p == ix.wordToDocumentFreqs;
  }

  /** `RemoveDuplicates`: mark, then remove every marked document. */
  method RemoveDuplicates(server: SearchServer) returns (removed: seq<int>)
    requires server.Valid()
    modifies server
    ensures server.Valid()
    ensures Increasing(removed)
    ensures Enumerates(removed, DuplicateIds(old(server.State())))
    ensures server.State() == Pruned(old(server.State()), DuplicateIds(old(server.State())))
  {
    ghost var ix := server.State();
    removed := FindDuplicates(server);
    PrunedNothing(ix);
    ghost var gone: set<int> := {};
    for j := 0 to |removed|
      invariant server.Valid()
      invariant forall x :: x in gone <==> x in removed[..j]
      invariant server.State() == Pruned(ix, gone)
    {
      PrunedStep(ix, gone, removed[j]);
      assert removed[..j + 1] == removed[..j] + [removed[j]];
      server.RemoveDocument(removed[j]);
      gone := gone + {removed[j]};
    }
    assert removed[..|removed|] == removed;
    assert Enumerates(removed, DuplicateIds(ix));
    assert forall x :: x in gone <==> x in DuplicateIds(ix);
    assert gone == DuplicateIds(ix);
  }

  // ---------------------------------------------------------------------------------
  // What the removal leaves

  /** A document that is not removed keeps its record, its words and their frequencies,
      and its postings. */
  lemma PrunedKeepsOthers(ix: Index, gone: set<int>, id: int)
    requires id !in gone
    ensures var after := Pruned(ix, gone);
      && (id in after.documents <==> id in ix.documents)
      && (id in ix.documents ==> after.documents[id] == ix.documents[id])
      && WordFrequencies(after, id) == WordFrequencies(ix, id)
      && after.wordToDocumentFreqs.Keys == ix.wordToDocumentFreqs.Keys
      && (forall w :: w in ix.wordToDocumentFreqs ==>
            (id in after.wordToDocumentFreqs[w] <==> id in ix.wordToDocumentFreqs[w])
            && (id in ix.wordToDocumentFreqs[w] ==>
                  after.wordToDocumentFreqs[w][id] == ix.wordToDocumentFreqs[w][id]))
  {
  }

  /** Only marked documents go, and the count falls by their number. */
  lemma PrunedCount(ix: Index)
    ensures var after := Pruned(ix, DuplicateIds(ix));
      && after.documents.Keys == ix.documents.Keys - DuplicateIds(ix)
      && DocumentCount(after) == DocumentCount(ix) - |DuplicateIds(ix)|
  {
    var keys := ix.documents.Keys;
    var dups := DuplicateIds(ix);
    assert keys == (keys - dups) + dups;
    assert |(ix.documents - dups).Keys| == |ix.documents - dups|;
  }

  /** Afterwards no two documents have the same set of words. */
  lemma PrunedDistinct(ix: Index, a: int, b: int)
    requires var after := Pruned(ix, DuplicateIds(ix)); a in after.documents && b in after.documents
    requires a != b
    ensures var after := Pruned(ix, DuplicateIds(ix)); Vocabulary(after, a) != Vocabulary(after, b)
  {
    var gone := DuplicateIds(ix);
    PrunedKeepsOthers(ix, gone, a);
    PrunedKeepsOthers(ix, gone, b);
    assert !IsDuplicate(ix, a) && !IsDuplicate(ix, b);
  }

  /** The documents with the same words as `id`. */
  function Group(ix: Index, id: int): set<int>
  {
    set x | x in ix.documents && Vocabulary(ix, x) == Vocabulary(ix, id)
  }

  /** In every group of documents with the same words the lowest id survives and all
      the others are removed. */
  lemma LowestSurvives(ix: Index, id: int)
    requires id in ix.documents
    ensures var g := Group(ix, id);
      var after := Pruned(ix, DuplicateIds(ix));
      && g != {}
      && Minimum(g) in after.documents
      && forall x :: x in g && x != Minimum(g) ==> x !in after.documents
  {
    var g := Group(ix, id);
    assert id in g;
    var m := Minimum(g);
    assert !IsDuplicate(ix, m) by {
      forall other | other in ix.documents && Vocabulary(ix, other) == Vocabulary(ix, m) ensures m <= other {
        assert other in g;
      }
    }
    forall x | x in g && x != m ensures IsDuplicate(ix, x) {
      assert m in ix.documents && m < x && Vocabulary(ix, m) == Vocabulary(ix, x);
    }
  }

  /** Documents without indexed words all share the empty set of words, so only the
      lowest of them survives. */
  lemma WordlessDocumentsAreDuplicates(ix: Index, a: int, b: int)
    requires a in ix.documents && b in ix.documents && a < b
    requires a !in ix.documentIdsFreqs && b !in ix.documentIdsFreqs
    ensures b in DuplicateIds(ix)
  {
    assert Vocabulary(ix, a) == Vocabulary(ix, b);
  }

  /** A second pass finds nothing to remove, and so changes nothing. */
  lemma RemoveDuplicatesIdempotent(ix: Index)
    ensures var after := Pruned(ix, DuplicateIds(ix));
      DuplicateIds(after) == {} && Pruned(after, DuplicateIds(after)) == after
  {
    var after := Pruned(ix, DuplicateIds(ix));
    forall x | x in after.documents ensures !IsDuplicate(after, x) {
      if IsDuplicate(after, x) {
        var other :| other in after.documents && other < x && Vocabulary(after, other) == Vocabulary(after, x);
        PrunedDistinct(ix, other, x);
      }
    }
    assert DuplicateIds(after) == {};
    PrunedNothing(after);
  }
}
