/** Order-preserving filtering of a sequence, the one list operation the
    registration page uses for both the per-arena split and team deletion. */
module Sequences {

  /** The elements of `s` that satisfy `keep`, in their original order. */
  function Filter<T(!new)>(s: seq<T>, keep: T -> bool): (r: seq<T>)
    ensures |r| <= |s|
    ensures forall x :: x in r <==> x in s && keep(x)
  {
    if |s| == 0 then [] else (if keep(s[0]) then [s[0]] else []) + Filter(s[1..], keep)
  }

  /** Each value survives the filter as many times as it occurs, or not at all. */
  lemma {:induction false} FilterMultiplicity<T(!new)>(s: seq<T>, keep: T -> bool, x: T)
    ensures multiset(Filter(s, keep))[x] == if keep(x) then multiset(s)[x] else 0
  {
    if |s| > 0 {
      assert s == [s[0]] + s[1..];
      FilterMultiplicity(s[1..], keep, x);
    }
  }

  /** Filtering distributes over concatenation: together with the one-element
      case this pins down the relative order of the survivors. */
  lemma {:induction false} FilterAppend<T(!new)>(a: seq<T>, b: seq<T>, keep: T -> bool)
    ensures Filter(a + b, keep) == Filter(a, keep) + Filter(b, keep)
  {
    if |a| == 0 {
      assert a + b == b;
    } else {
      assert (a + b)[1..] == a[1..] + b;
      FilterAppend(a[1..], b, keep);
    }
  }

  /** Filtering twice with the same test changes nothing the second time. */
  lemma {:induction false} FilterIdempotent<T(!new)>(s: seq<T>, keep: T -> bool)
    ensures Filter(Filter(s, keep), keep) == Filter(s, keep)
  {
    if |s| > 0 {
      FilterIdempotent(s[1..], keep);
      var head := if keep(s[0]) then [s[0]] else [];
      FilterAppend(head, Filter(s[1..], keep), keep);
    }
  }

  /** A filter that keeps every element returns the sequence itself. */
  lemma {:induction false} FilterKeepsAll<T(!new)>(s: seq<T>, keep: T -> bool)
    requires forall i :: 0 <= i < |s| ==> keep(s[i])
    ensures Filter(s, keep) == s
  {
    if |s| > 0 {
      FilterKeepsAll(s[1..], keep);
      assert s == [s[0]] + s[1..];
    }
  }
}
