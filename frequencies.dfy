/** Term frequencies as `AddDocument` computes them: every occurrence of a word adds
    `1 / n` to it, `n` being the number of non-stop words of the document. */
module Frequencies {
  import opened StringOrder

  /** Occurrences of `w` in `ws`. */
  function Count(ws: seq<string>, w: string): nat
  {
    if ws == [] then 0 else Count(ws[..|ws| - 1], w) + (if ws[|ws| - 1] == w then 1 else 0)
  }

  /** `inv` added `c` times to zero. */
  function Repeat(c: nat, inv: real): real
  {
    if c == 0 then 0.0 else Repeat(c - 1, inv) + inv
  }

  /** The map after every word of `ws` has added `inv` to its entry (`map[w] += inv`). */
  function Accumulated(ws: seq<string>, inv: real): map<string, real>
  {
    map w | w in ws :: Repeat(Count(ws, w), inv)
  }

  /** The term frequencies of a document's non-stop words: occurrences over length. */
  function TermFreqs(ws: seq<string>): map<string, real>
  {
    if ws == [] then map[] else Accumulated(ws, 1.0 / (|ws| as real))
  }

  /** One more word adds `inv` to its own entry and changes no other. */
  lemma AccumulatedStep(ws: seq<string>, w: string, inv: real)
    ensures var m := Accumulated(ws, inv);
      Accumulated(ws + [w], inv) == m[w := (if w in m then m[w] else 0.0) + inv]
  {
    var m := Accumulated(ws, inv);
    var ws' := ws + [w];
    assert ws'[..|ws'| - 1] == ws;
    var lhs := Accumulated(ws', inv);
    var rhs := m[w := (if w in m then m[w] else 0.0) + inv];
    forall x ensures x in lhs <==> x in rhs {
      assert x in ws' <==> x in ws || x == w;
    }
    forall x | x in lhs ensures lhs[x] == rhs[x] {
      var c := Count(ws, x);
      assert Count(ws', x) == c + (if x == w then 1 else 0);
      assert Repeat(c + 1, inv) == Repeat(c, inv) + inv;
      if x != w {
        assert x in ws;
      } else if w !in ws {
        CountAbsent(ws, w);
      }
    }
  }

  /** Adding `inv` `c` times is multiplying it by `c`. */
  lemma {:induction false} RepeatIsProduct(c: nat, inv: real)
    ensures Repeat(c, inv) == c as real * inv
  {
    if c > 0 {
      RepeatIsProduct(c - 1, inv);
      Distribute((c - 1) as real, inv);
    }
  }

  lemma {:induction false} RepeatAdd(a: nat, b: nat, inv: real)
    ensures Repeat(a + b, inv) == Repeat(a, inv) + Repeat(b, inv)
  {
    if b > 0 {
      RepeatAdd(a, b - 1, inv);
    }
  }

  lemma Distribute(c: real, inv: real)
    ensures (c + 1.0) * inv == c * inv + inv
  {
  }

  lemma ScaleBounds(c: real, n: real)
    requires 0.0 < c <= n
    ensures 0.0 < c * (1.0 / n) <= 1.0
  {
    var inv := 1.0 / n;
    assert n * inv == 1.0;
    assert (n - c) * inv >= 0.0;
  }

  lemma Unit(n: real)
    requires n > 0.0
    ensures n * (1.0 / n) == 1.0
  {
  }

  lemma {:induction false} CountAbsent(ws: seq<string>, w: string)
    requires w !in ws
    ensures Count(ws, w) == 0
  {
    if ws != [] {
      CountAbsent(ws[..|ws| - 1], w);
    }
  }

  lemma {:induction false} CountPresent(ws: seq<string>, w: string)
    requires w in ws
    ensures 1 <= Count(ws, w) <= |ws|
  {
    var init := ws[..|ws| - 1];
    if ws[|ws| - 1] == w {
      CountAtMostLength(init, w);
    } else {
      assert w in init by {
        var i :| 0 <= i < |ws| && ws[i] == w;
        assert init[i] == w;
      }
      CountPresent(init, w);
    }
  }

  lemma {:induction false} CountAtMostLength(ws: seq<string>, w: string)
    ensures Count(ws, w) <= |ws|
  {
    if ws != [] {
      CountAtMostLength(ws[..|ws| - 1], w);
    }
  }

  /** The frequency of a word met `c` times among `n` words: `c` times `1 / n`. */
  function Share(c: nat, n: nat): real
    requires n > 0
  {
    c as real * (1.0 / n as real)
  }

  /** The frequency of a word of the document is its share of the words. */
  lemma TermFreqAt(ws: seq<string>, w: string)
    requires w in ws
    ensures w in TermFreqs(ws)
    ensures TermFreqs(ws)[w] == Share(Count(ws, w), |ws|)
  {
    var inv := 1.0 / |ws| as real;
    var f := TermFreqs(ws)[w];
    var c := Count(ws, w);
    assert f == Repeat(c, inv);
    RepeatIsProduct(c, inv);
    assert f == Share(c, |ws|);
  }

  lemma CountShareBounds(ws: seq<string>, w: string)
    requires w in ws
    ensures 0.0 < Share(Count(ws, w), |ws|) <= 1.0
  {
    CountPresent(ws, w);
    ScaleBounds(Count(ws, w) as real, |ws| as real);
  }

  /** Every word of a document has a frequency in (0, 1]: its number of occurrences
      over the number of words, and it occurs at least once and at most that often. */
  lemma TermFreqInUnitInterval(ws: seq<string>, w: string)
    requires w in ws
    ensures w in TermFreqs(ws)
    ensures TermFreqs(ws)[w] == Share(Count(ws, w), |ws|)
    ensures 0.0 < TermFreqs(ws)[w] <= 1.0
  {
    TermFreqAt(ws, w);
    CountShareBounds(ws, w);
  }

  /** `Σ Count(ws, d)` over the words `d` of `ds`. */
  function SumCounts(ds: seq<string>, ws: seq<string>): nat
  {
    if ds == [] then 0 else Count(ws, ds[0]) + SumCounts(ds[1..], ws)
  }

  /** `Σ freqs[d]` over the words `d` of `ds`. */
  function SumFreqs(ds: seq<string>, freqs: map<string, real>): real
    requires forall d :: d in ds ==> d in freqs
  {
    if ds == [] then 0.0 else freqs[ds[0]] + SumFreqs(ds[1..], freqs)
  }

  lemma {:induction false} SumCountsAppend(ds: seq<string>, ws: seq<string>, x: string)
    requires StrictlySorted(ds)
    ensures SumCounts(ds, ws + [x]) == SumCounts(ds, ws) + (if x in ds then 1 else 0)
  {
    if ds != [] {
      var ws' := ws + [x];
      assert ws'[..|ws'| - 1] == ws;
      SumCountsAppend(ds[1..], ws, x);
      if x == ds[0] {
        assert x !in ds[1..] by {
          if x in ds[1..] {
            var k :| 0 <= k < |ds[1..]| && ds[1..][k] == x;
            assert Less(ds[0], ds[k + 1]);
            LessIrreflexive(x);
          }
        }
      } else {
        assert x in ds <==> x in ds[1..];
      }
    }
  }

  lemma {:induction false} SumCountsInsert(ds: seq<string>, ws: seq<string>, x: string)
    requires StrictlySorted(ds)
    ensures SumCounts(InsertUnique(ds, x), ws) == SumCounts(ds, ws) + (if x in ds then 0 else Count(ws, x))
  {
    if ds == [] {
    } else if x == ds[0] {
    } else if Less(x, ds[0]) {
      LessIrreflexiveAll(ds, x) by {
        forall j | 0 <= j < |ds| ensures Less(x, ds[j]) {
          if j > 0 { LessTransitive(x, ds[0], ds[j]); }
        }
      }
      assert InsertUnique(ds, x)[1..] == ds;
    } else {
      var tail := InsertUnique(ds[1..], x);
      assert InsertUnique(ds, x) == [ds[0]] + tail;
      assert ([ds[0]] + tail)[1..] == tail;
      SumCountsInsert(ds[1..], ws, x);
      assert x in ds <==> x in ds[1..];
    }
  }

  /** Counting every distinct word of a document gives back its length. */
  lemma {:induction false} CountsAddUp(ws: seq<string>)
    ensures SumCounts(SortUnique(ws), ws) == |ws|
  {
    if ws != [] {
      var init := ws[..|ws| - 1];
      var x := ws[|ws| - 1];
      assert ws == init + [x];
      var ds := SortUnique(init);
      CountsAddUp(init);
      SumCountsInsert(ds, ws, x);
      SumCountsAppend(ds, init, x);
      if x !in ds {
        CountAbsent(init, x);
      }
    }
  }

  lemma {:induction false} SumFreqsRepeat(ds: seq<string>, ws: seq<string>, inv: real)
    requires forall d :: d in ds ==> d in ws
    ensures forall d :: d in ds ==> d in Accumulated(ws, inv)
    ensures SumFreqs(ds, Accumulated(ws, inv)) == Repeat(SumCounts(ds, ws), inv)
  {
    if ds != [] {
      SumFreqsRepeat(ds[1..], ws, inv);
      RepeatAdd(Count(ws, ds[0]), SumCounts(ds[1..], ws), inv);
    }
  }

  lemma SumTermFreqs(ws: seq<string>)
    requires ws != []
    ensures forall d :: d in SortUnique(ws) ==> d in TermFreqs(ws)
    ensures SumFreqs(SortUnique(ws), TermFreqs(ws)) == Repeat(|ws|, 1.0 / |ws| as real)
  {
    var ds := SortUnique(ws);
    var inv := 1.0 / |ws| as real;
    assert TermFreqs(ws) == Accumulated(ws, inv);
    SumFreqsRepeat(ds, ws, inv);
    CountsAddUp(ws);
  }

  lemma RepeatInverse(n: nat)
    requires n > 0
    ensures Repeat(n, 1.0 / n as real) == 1.0
  {
    RepeatIsProduct(n, 1.0 / n as real);
    Unit(n as real);
  }

  /** The term frequencies of one document add up to 1. */
  lemma TermFreqsSumToOne(ws: seq<string>)
    requires ws != []
    ensures forall d :: d in SortUnique(ws) ==> d in TermFreqs(ws)
    ensures SumFreqs(SortUnique(ws), TermFreqs(ws)) == 1.0
  {
    SumTermFreqs(ws);
    RepeatInverse(|ws|);
  }
}
