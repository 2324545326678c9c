/**
  Python's `str.split(sep)` and `sep.join(parts)` for a one-character
  separator, with the round trips between them.
 */
module Strings {

  /** Number of occurrences of `c` in `s`. */
  function Count(s: string, c: char): (n: nat)
    ensures n <= |s|
    ensures n == 0 <==> c !in s
  {
    if |s| == 0 then 0
    else (if s[0] == c then 1 else 0) + Count(s[1..], c)
  }

  /**
    `s.split(sep)`: the maximal separator-free pieces of `s`, in order.
    As in Python, the empty string splits into one empty piece.
   */
  function Split(s: string, sep: char): (parts: seq<string>)
    ensures |parts| == Count(s, sep) + 1
    ensures forall i :: 0 <= i < |parts| ==> sep !in parts[i]
    decreases |s|
  {
    if |s| == 0 then [""]
    else
      var rest := Split(s[1..], sep);
      if s[0] == sep then [""] + rest
      else [[s[0]] + rest[0]] + rest[1..]
  }

  /**
    `sep.join(parts)`: the pieces in order with one separator between
    neighbouring pieces.
   */
  function Join(parts: seq<string>, sep: char): (r: string)
    ensures |parts| == 0 ==> r == ""
    ensures |parts| == 1 ==> r == parts[0]
  {
    if |parts| == 0 then ""
    else if |parts| == 1 then parts[0]
    else parts[0] + [sep] + Join(parts[1..], sep)
  }

  /**
    A join holds at least one separator between each pair of neighbouring
    pieces, and exactly that many when no piece contains the separator.
   */
  lemma {:induction false} JoinSeparators(parts: seq<string>, sep: char)
    requires |parts| > 0
    ensures Count(Join(parts, sep), sep) >= |parts| - 1
    ensures SeparatorFree(parts, sep) ==> Count(Join(parts, sep), sep) == |parts| - 1
    decreases |parts|
  {
    if |parts| > 1 {
      var rest := Join(parts[1..], sep);
      JoinSeparators(parts[1..], sep);
      CountConcat(parts[0] + [sep], rest, sep);
      CountConcat(parts[0], [sep], sep);
      assert Count([sep], sep) == 1;
      if SeparatorFree(parts, sep) {
        assert sep !in parts[0];
        forall i | 0 <= i < |parts[1..]| ensures sep !in parts[1..][i] {
          assert parts[1..][i] == parts[i + 1];
        }
      }
    }
  }

  /** A join starts with its first piece. */
  lemma JoinStartsWithHead(parts: seq<string>, sep: char)
    ensures |parts| > 0 ==> |Join(parts, sep)| >= |parts[0]| && Join(parts, sep)[..|parts[0]|] == parts[0]
  {
  }

  /** No piece of `parts` contains the separator. */
  predicate SeparatorFree(parts: seq<string>, sep: char)
  {
    forall i :: 0 <= i < |parts| ==> sep !in parts[i]
  }

  /** Joining the pieces of a split gives back the original string. */
  lemma {:induction false} JoinSplit(s: string, sep: char)
    ensures Join(Split(s, sep), sep) == s
    decreases |s|
  {
    if |s| > 0 {
      var rest := Split(s[1..], sep);
      JoinSplit(s[1..], sep);
      if s[0] == sep {
        assert Join([""] + rest, sep) == "" + [sep] + Join(rest, sep);
      } else if |rest| == 1 {
        assert Split(s, sep) == [[s[0]] + rest[0]];
      } else {
        var parts := Split(s, sep);
        assert parts[1..] == rest[1..];
        assert Join(rest, sep) == rest[0] + [sep] + Join(rest[1..], sep);
      }
    }
  }

  /** Splitting a separator-free prefix onto `t` only extends the first piece of `t`'s split. */
  lemma {:induction false} SplitPrefix(a: string, t: string, sep: char)
    requires sep !in a
    ensures Split(a + t, sep) == [a + Split(t, sep)[0]] + Split(t, sep)[1..]
    decreases |a|
  {
    if |a| > 0 {
      var parts := Split(t, sep);
      assert (a + t)[1..] == a[1..] + t;
      SplitPrefix(a[1..], t, sep);
      var rest := Split(a[1..] + t, sep);
      assert rest == [a[1..] + parts[0]] + parts[1..];
      assert (a + t)[0] == a[0] && a[0] != sep;
      assert Split(a + t, sep) == [[a[0]] + rest[0]] + rest[1..];
      assert [a[0]] + (a[1..] + parts[0]) == a + parts[0];
    } else {
      var parts := Split(t, sep);
      assert a + t == t;
      assert a + parts[0] == parts[0];
      assert parts == [parts[0]] + parts[1..];
    }
  }

  /** Splitting the join of separator-free pieces gives back the pieces. */
  lemma {:induction false} SplitJoin(parts: seq<string>, sep: char)
    requires |parts| >= 1
    requires SeparatorFree(parts, sep)
    ensures Split(Join(parts, sep), sep) == parts
    decreases |parts|
  {
    if |parts| == 1 {
      SplitPrefix(parts[0], "", sep);
      assert parts[0] + "" == parts[0];
    } else {
      var tail := Join(parts[1..], sep);
      SplitJoin(parts[1..], sep);
      assert Join(parts, sep) == parts[0] + ([sep] + tail);
      SplitPrefix(parts[0], [sep] + tail, sep);
      assert ([sep] + tail)[1..] == tail;
      assert parts[0] + "" == parts[0];
    }
  }

  /** The two-piece case used by every `HH:MM` parser: `a + ":" + b` splits into `[a, b]`. */
  lemma SplitPair(a: string, b: string, sep: char)
    requires sep !in a && sep !in b
    ensures Split(a + [sep] + b, sep) == [a, b]
  {
    SplitJoin([a, b], sep);
    assert Join([a, b], sep) == a + [sep] + Join([b], sep);
  }

  /** Position of the first occurrence of `c` in `s`. */
  function IndexOf(s: string, c: char): (i: nat)
    requires c in s
    ensures i < |s| && s[i] == c && c !in s[..i]
  {
    if s[0] == c then 0
    else
      var j := IndexOf(s[1..], c);
      assert s[..j + 1] == [s[0]] + s[1..][..j];
      j + 1
  }

  lemma {:induction false} CountConcat(a: string, b: string, c: char)
    ensures Count(a + b, c) == Count(a, c) + Count(b, c)
    decreases |a|
  {
    if |a| > 0 {
      assert (a + b)[1..] == a[1..] + b;
      CountConcat(a[1..], b, c);
    } else {
      assert a + b == b;
    }
  }

  /**
    A string splits into exactly two pieces iff it holds the separator
    exactly once, and the pieces are then the text before and after it.
   */
  lemma SplitTwo(s: string, sep: char)
    ensures |Split(s, sep)| == 2 <==> Count(s, sep) == 1
    ensures Count(s, sep) == 1 ==>
      var i := IndexOf(s, sep);
      Split(s, sep) == [s[..i], s[i + 1..]]
  {
    if Count(s, sep) == 1 {
      var i := IndexOf(s, sep);
      assert s == s[..i] + [sep] + s[i + 1..];
      CountConcat(s[..i] + [sep], s[i + 1..], sep);
      CountConcat(s[..i], [sep], sep);
      SplitPair(s[..i], s[i + 1..], sep);
    }
  }

  /** A text set between a fixed head and a fixed tail, from which it reads back. */
  function Framed(head: string, middle: string, tail: string): (r: string)
    ensures |r| == |head| + |middle| + |tail|
    ensures r[..|head|] == head
    ensures r[|head|..|r| - |tail|] == middle
    ensures r[|r| - |tail|..] == tail
  {
    var r := head + middle + tail;
    assert r[..|head|] == head;
    assert r[|head|..|r| - |tail|] == middle;
    r
  }

  /** The same frame around two texts gives the same result exactly for the same text. */
  lemma FramedInjective(head: string, a: string, b: string, tail: string)
    ensures Framed(head, a, tail) == Framed(head, b, tail) <==> a == b
  {
    if Framed(head, a, tail) == Framed(head, b, tail) {
      var r := Framed(head, a, tail);
      assert a == r[|head|..|r| - |tail|] == b;
    }
  }
}
