/**
  What several parts need: bytes, and sequences without repetition.
 */
module Sequences {
  type Byte = b: int | 0 <= b < 256

  predicate Distinct<T(==)>(s: seq<T>) {
    forall i, j :: 0 <= i < j < |s| ==> s[i] != s[j]
  }

  /** Distinct elements of a sequence are no more than its length. */
  lemma {:induction false} DistinctFit<T>(js: seq<T>, cur: seq<T>)
    requires Distinct(js) && forall i :: 0 <= i < |js| ==> js[i] in cur
    ensures |js| <= |cur|
    decreases |js|
  {
    if |js| > 0 {
      var n := |js| - 1;
      assert js[n] in cur;
      var p :| 0 <= p < |cur| && cur[p] == js[n];
      var rest := cur[..p] + cur[p + 1..];
      forall i | 0 <= i < n
        ensures js[..n][i] in rest
      {
        assert js[i] in cur;
        var q :| 0 <= q < |cur| && cur[q] == js[i];
        if q < p { assert rest[q] == js[i]; } else { assert rest[q - 1] == js[i]; }
      }
      DistinctFit(js[..n], rest);
    }
  }

  function Reversed<T>(s: seq<T>): (r: seq<T>)
    ensures |r| == |s| && forall i :: 0 <= i < |s| ==> r[i] == s[|s| - 1 - i]
  {
    if s == [] then [] else Reversed(s[1..]) + [s[0]]
  }

  lemma ReversedCat<T>(a: seq<T>, b: seq<T>)
    ensures Reversed(a + b) == Reversed(b) + Reversed(a)
  {}

  lemma ReversedOne<T>(x: T)
    ensures Reversed([x]) == [x] && Reversed<T>([]) == []
  {}

  lemma ReversedMultiset<T>(s: seq<T>)
    ensures multiset(Reversed(s)) == multiset(s)
  {
    if s != [] {
      ReversedMultiset(s[1..]);
      assert s == [s[0]] + s[1..];
    }
  }
}
