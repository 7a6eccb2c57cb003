/** The tokenizer of the search server: `SplitIntoWords` cuts a text at every single
    space and keeps the empty pieces that leading, trailing or doubled spaces leave. */
module StringProcessing {

  /** Position of the first `c` in `s`, or `|s|` when there is none (the `npos` of
      `std::string_view::find`). */
  function Find(s: string, c: char): (i: nat)
    ensures i <= |s|
    ensures i < |s| ==> s[i] == c
    ensures forall j :: 0 <= j < i ==> s[j] != c
  {
    if s == [] then 0
    else if s[0] == c then 0
    else 1 + Find(s[1..], c)
  }

  /** Number of occurrences of `c` in `s`. */
  function CountChar(s: string, c: char): nat
  {
    if s == [] then 0 else (if s[0] == c then 1 else 0) + CountChar(s[1..], c)
  }

  /** The pieces of `s` between single spaces, left to right: the value that
      `SplitIntoWords` computes. */
  function Split(s: string): (r: seq<string>)
    ensures |r| >= 1
    decreases |s|
  {
    var i := Find(s, ' ');
    if i == |s| then [s] else [s[..i]] + Split(s[i + 1..])
  }

  /** The pieces glued back together with one `sep` between neighbours. */
  function Join(pieces: seq<string>, sep: char): string
  {
    if |pieces| == 0 then ""
    else if |pieces| == 1 then pieces[0]
    else pieces[0] + [sep] + Join(pieces[1..], sep)
  }

  /** The loop of `SplitIntoWords`: find the next space, push the piece before it,
      drop the piece and the space, stop when no space is left. */
  method SplitIntoWords(text: string) returns (result: seq<string>)
    ensures result == Split(text)
  {
    var str := text;
    result := [];
    while true
      invariant result + Split(str) == Split(text)
      decreases |str|
    {
      var space := Find(str, ' ');
      var piece := str[..space];
      ghost var rest := if space == |str| then [] else Split(str[space + 1..]);
      assert space == |str| ==> piece == str;
      assert Split(str) == [piece] + rest;
      assert (result + [piece]) + rest == result + Split(str);
      result := result + [piece];
      if space == |str| {
        break;
      }
      str := str[space + 1..];
    }
  }

  /** The empty text gives one empty piece. */
  lemma SplitEmpty()
    ensures Split("") == [""]
  {
  }

  /** No piece contains a space. */
  lemma {:induction false} SplitHasNoSpaces(s: string)
    ensures forall k :: 0 <= k < |Split(s)| ==> ' ' !in Split(s)[k]
    decreases |s|
  {
    var i := Find(s, ' ');
    if i < |s| {
      SplitHasNoSpaces(s[i + 1..]);
      assert ' ' !in s[..i] by {
        forall j | 0 <= j < i ensures s[..i][j] != ' ' { }
      }
    }
  }

  lemma {:induction false} CountCharAppend(a: string, b: string, c: char)
    ensures CountChar(a + b, c) == CountChar(a, c) + CountChar(b, c)
  {
    if a != [] {
      assert (a + b)[0] == a[0];
      assert (a + b)[1..] == a[1..] + b;
      CountCharAppend(a[1..], b, c);
    } else {
      assert a + b == b;
    }
  }

  lemma {:induction false} CountCharAbsent(s: string, c: char)
    requires c !in s
    ensures CountChar(s, c) == 0
  {
    if s != [] {
      CountCharAbsent(s[1..], c);
    }
  }

  /** There is exactly one more piece than there are spaces. */
  lemma {:induction false} SplitLength(s: string)
    ensures |Split(s)| == CountChar(s, ' ') + 1
    decreases |s|
  {
    var i := Find(s, ' ');
    assert ' ' !in s[..i] by {
      forall j | 0 <= j < i ensures s[..i][j] != ' ' { }
    }
    CountCharAbsent(s[..i], ' ');
    if i == |s| {
      assert s[..i] == s;
    } else {
      SplitLength(s[i + 1..]);
      assert s == s[..i] + ([s[i]] + s[i + 1..]);
      CountCharAppend(s[..i], [s[i]] + s[i + 1..], ' ');
      CountCharAppend([s[i]], s[i + 1..], ' ');
    }
  }

  /** Joining the pieces with single spaces gives the input back. */
  lemma {:induction false} JoinSplit(s: string)
    ensures Join(Split(s), ' ') == s
    decreases |s|
  {
    var i := Find(s, ' ');
    if i < |s| {
      var rest := Split(s[i + 1..]);
      JoinSplit(s[i + 1..]);
      assert Split(s) == [s[..i]] + rest;
      assert (Split(s))[1..] == rest;
      assert s == s[..i] + [' '] + s[i + 1..];
    }
  }

  lemma FindAfterPrefix(a: string, b: string, c: char)
    requires c !in a
    ensures Find(a + [c] + b, c) == |a|
  {
    var s := a + [c] + b;
    assert forall j :: 0 <= j < |a| ==> s[j] == a[j];
    assert s[|a|] == c;
  }

  lemma FindAbsent(a: string, c: char)
    requires c !in a
    ensures Find(a, c) == |a|
  {
  }

  /** Splitting undoes joining: a non-empty list of space-free pieces is recovered
      from the pieces glued with single spaces. */
  lemma {:induction false} SplitJoin(pieces: seq<string>)
    requires |pieces| >= 1
    requires forall k :: 0 <= k < |pieces| ==> ' ' !in pieces[k]
    ensures Split(Join(pieces, ' ')) == pieces
    decreases |pieces|
  {
    if |pieces| == 1 {
      FindAbsent(pieces[0], ' ');
    } else {
      var s := Join(pieces, ' ');
      var tail := Join(pieces[1..], ' ');
      assert s == pieces[0] + [' '] + tail;
      FindAfterPrefix(pieces[0], tail, ' ');
      assert s[..|pieces[0]|] == pieces[0];
      assert s[|pieces[0]| + 1..] == tail;
      SplitJoin(pieces[1..]);
      assert pieces == [pieces[0]] + pieces[1..];
    }
  }
}
