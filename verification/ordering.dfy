/**
  Python's ordering of strings (code point by code point, a proper prefix
  first) and `sorted(keys)` for a set of strings.
 */
module Ordering {

  /** `a < b` on Python strings. */
  predicate Less(a: string, b: string)
    decreases |a|
  {
    if |a| == 0 then |b| > 0
    else if |b| == 0 then false
    else if a[0] != b[0] then a[0] < b[0]
    else Less(a[1..], b[1..])
  }

  lemma {:induction false} LessIrreflexive(a: string)
    ensures !Less(a, a)
    decreases |a|
  {
    if |a| > 0 {
      LessIrreflexive(a[1..]);
    }
  }

  lemma {:induction false} LessAsymmetric(a: string, b: string)
    ensures Less(a, b) ==> !Less(b, a)
    decreases |a|
  {
    if |a| > 0 && |b| > 0 && a[0] == b[0] {
      LessAsymmetric(a[1..], b[1..]);
    }
  }

  lemma {:induction false} LessTransitive(a: string, b: string, c: string)
    requires Less(a, b) && Less(b, c)
    ensures Less(a, c)
    decreases |a|
  {
    if |a| > 0 && a[0] == b[0] && b[0] == c[0] {
      LessTransitive(a[1..], b[1..], c[1..]);
    }
  }

  lemma {:induction false} LessTotal(a: string, b: string)
    requires a != b
    ensures Less(a, b) || Less(b, a)
    decreases |a|
  {
    if |a| > 0 && |b| > 0 && a[0] == b[0] {
      assert a == [a[0]] + a[1..] && b == [b[0]] + b[1..];
      LessTotal(a[1..], b[1..]);
    }
  }

  /** `m` is the smallest element of `ks`. */
  predicate IsLeast(m: string, ks: set<string>)
  {
    m in ks && forall k :: k in ks && k != m ==> Less(m, k)
  }

  /** Every non-empty finite set of strings has a least element. */
  lemma {:induction false} LeastExists(ks: set<string>)
    requires ks != {}
    ensures exists m :: IsLeast(m, ks)
    decreases |ks|
  {
    var x :| x in ks;
    var rest := ks - {x};
    if rest == {} {
      assert ks == {x};
      assert IsLeast(x, ks);
    } else {
      LeastExists(rest);
      var m :| IsLeast(m, rest);
      if Less(x, m) {
        forall k | k in ks && k != x
          ensures Less(x, k)
        {
          if k != m {
            LessTransitive(x, m, k);
          }
        }
        assert IsLeast(x, ks);
      } else {
        LessTotal(x, m);
        assert IsLeast(m, ks);
      }
    }
  }

  /** At most one element of a set is its least element. */
  lemma LeastUnique(ks: set<string>)
    ensures forall m, n :: IsLeast(m, ks) && IsLeast(n, ks) ==> m == n
  {
    forall m, n | IsLeast(m, ks) && IsLeast(n, ks)
      ensures m == n
    {
      LessAsymmetric(m, n);
    }
  }

  /** Strictly ascending: sorted and without repetitions. */
  predicate StrictlyAscending(s: seq<string>)
  {
    forall i, j :: 0 <= i < j < |s| ==> Less(s[i], s[j])
  }

  /** `sorted(ks)`: the elements of `ks`, each once, in ascending order. */
  function SortedList(ks: set<string>): (r: seq<string>)
    ensures StrictlyAscending(r)
    ensures forall k :: k in r <==> k in ks
    ensures |r| == |ks|
    decreases |ks|
  {
    if ks == {} then []
    else
      LeastExists(ks);
      LeastUnique(ks);
      var m :| IsLeast(m, ks);
      var rest := SortedList(ks - {m});
      assert forall j :: 0 <= j < |rest| ==> Less(m, rest[j]) by {
        forall j | 0 <= j < |rest|
          ensures Less(m, rest[j])
        {
          assert rest[j] in rest;
        }
      }
      [m] + rest
  }
}
