/** The order of `std::string` (lexicographic by character, a proper prefix first) and
    the sorted, duplicate-free word lists that `std::sort` followed by `std::unique`
    produce, which is also how a `std::set<std::string>` is laid out. */
module StringOrder {

  /** `a < b` on strings. */
  predicate Less(a: string, b: string)
  {
    if a == [] then b != []
    else b != [] && (a[0] < b[0] || (a[0] == b[0] && Less(a[1..], b[1..])))
  }

  lemma {:induction false} LessIrreflexive(a: string)
    ensures !Less(a, a)
  {
    if a != [] {
      LessIrreflexive(a[1..]);
    }
  }

  lemma {:induction false} LessTransitive(a: string, b: string, c: string)
    requires Less(a, b) && Less(b, c)
    ensures Less(a, c)
  {
    if a != [] && a[0] == b[0] && b[0] == c[0] {
      LessTransitive(a[1..], b[1..], c[1..]);
    }
  }

  /** Any two strings are equal or ordered one way, and never both ways. */
  lemma {:induction false} LessTrichotomy(a: string, b: string)
    ensures a == b || Less(a, b) || Less(b, a)
    ensures !(Less(a, b) && Less(b, a))
  {
    if a != [] && b != [] && a[0] == b[0] {
      LessTrichotomy(a[1..], b[1..]);
      if a[1..] == b[1..] {
        assert a == [a[0]] + a[1..] && b == [b[0]] + b[1..];
      }
    }
  }

  predicate StrictlySorted(s: seq<string>)
  {
    forall i, j :: 0 <= i < j < |s| ==> Less(s[i], s[j])
  }

  /** `std::set<std::string>::insert`: `x` joins a strictly sorted list at its place,
      and an element already there is not added twice. */
  function InsertUnique(s: seq<string>, x: string): (r: seq<string>)
    requires StrictlySorted(s)
    ensures StrictlySorted(r)
    ensures forall y :: y in r <==> y in s || y == x
    ensures |r| == if x in s then |s| else |s| + 1
  {
    if s == [] then [x]
    else if x == s[0] then s
    else if Less(x, s[0]) then
      assert forall j :: 0 <= j < |s| ==> Less(x, s[j]) by {
        forall j | 0 <= j < |s| ensures Less(x, s[j]) {
          if j > 0 { LessTransitive(x, s[0], s[j]); }
        }
      }
      LessIrreflexiveAll(s, x);
      [x] + s
    else
      LessTrichotomy(x, s[0]);
      var tail := InsertUnique(s[1..], x);
      assert x in s <==> x in s[1..];
      assert forall k :: 0 <= k < |tail| ==> Less(s[0], tail[k]) by {
        forall k | 0 <= k < |tail| ensures Less(s[0], tail[k]) {
          var y := tail[k];
          assert y in tail;
          if y != x {
            var m :| 0 <= m < |s[1..]| && s[1..][m] == y;
            assert s[m + 1] == y;
          }
        }
      }
      [s[0]] + tail
  }

  /** A string smaller than every element of a list is not in it. */
  lemma LessIrreflexiveAll(s: seq<string>, x: string)
    requires forall j :: 0 <= j < |s| ==> Less(x, s[j])
    ensures x !in s
  {
    if x in s {
      var j :| 0 <= j < |s| && s[j] == x;
      LessIrreflexive(x);
    }
  }

  /** `std::sort` followed by `std::unique` and `erase`: the distinct elements of `xs`
      in ascending order. */
  function SortUnique(xs: seq<string>): (r: seq<string>)
    ensures StrictlySorted(r)
    ensures forall y :: y in r <==> y in xs
  {
    if xs == [] then [] else InsertUnique(SortUnique(xs[..|xs| - 1]), xs[|xs| - 1])
  }

  lemma SameElementsBothEmpty(a: seq<string>, b: seq<string>)
    requires forall y :: y in a <==> y in b
    ensures a == [] <==> b == []
  {
    if a != [] { assert a[0] in a; }
    if b != [] { assert b[0] in b; }
  }

  /** A strictly sorted list is determined by its elements: any sort-then-unique of
      the same words gives the same list. */
  lemma {:induction false} StrictlySortedUnique(a: seq<string>, b: seq<string>)
    requires StrictlySorted(a) && StrictlySorted(b)
    requires forall y :: y in a <==> y in b
    ensures a == b
    decreases |a|
  {
    SameElementsBothEmpty(a, b);
    if a != [] {
      assert a[0] == b[0] by {
        assert a[0] in b;
        assert b[0] in a;
        var i :| 0 <= i < |b| && b[i] == a[0];
        var j :| 0 <= j < |a| && a[j] == b[0];
        if a[0] != b[0] {
          assert i > 0 && j > 0;
          assert Less(b[0], a[0]) && Less(a[0], b[0]);
          LessTrichotomy(a[0], b[0]);
        }
      }
      forall y ensures y in a[1..] <==> y in b[1..] {
        if y in a[1..] {
          var k :| 1 <= k < |a| && a[k] == y;
          if y == b[0] { LessIrreflexive(y); }
          assert y in b && y != b[0];
        }
        if y in b[1..] {
          var k :| 1 <= k < |b| && b[k] == y;
          if y == a[0] { LessIrreflexive(y); }
          assert y in a && y != a[0];
        }
      }
      StrictlySortedUnique(a[1..], b[1..]);
      assert a == [a[0]] + a[1..] && b == [b[0]] + b[1..];
    }
  }
}
