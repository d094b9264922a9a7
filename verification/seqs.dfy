/** Order-preserving filtering of sequences, the `Array.prototype.filter`
    both screens use to drop ranges, files and non-PDF uploads. */
module Seqs {

  /** The elements of `s` that `keep` accepts, in their original order. */
  function Filter<T>(s: seq<T>, keep: T -> bool): (r: seq<T>)
    ensures |r| <= |s|
    ensures forall k :: 0 <= k < |r| ==> r[k] in s && keep(r[k])
    ensures forall k :: 0 <= k < |s| && keep(s[k]) ==> s[k] in r
    decreases |s|
  {
    if |s| == 0 then []
    else (if keep(s[0]) then [s[0]] else []) + Filter(s[1..], keep)
  }

  /** Filtering distributes over concatenation: the kept elements of a
      prefix come before the kept elements of the rest, so relative
      order is preserved. */
  lemma {:induction false} FilterConcat<T>(a: seq<T>, b: seq<T>, keep: T -> bool)
    ensures Filter(a + b, keep) == Filter(a, keep) + Filter(b, keep)
    decreases |a|
  {
    if |a| == 0 {
      assert a + b == b;
    } else {
      assert (a + b)[1..] == a[1..] + b;
      FilterConcat(a[1..], b, keep);
    }
  }

  /** When every element is kept, filtering changes nothing. */
  lemma {:induction false} FilterKeepsAll<T>(s: seq<T>, keep: T -> bool)
    requires forall k :: 0 <= k < |s| ==> keep(s[k])
    ensures Filter(s, keep) == s
    decreases |s|
  {
    if |s| > 0 {
      FilterKeepsAll(s[1..], keep);
    }
  }

  /** When no element is kept, nothing is left. */
  lemma {:induction false} FilterKeepsNone<T>(s: seq<T>, keep: T -> bool)
    requires forall k :: 0 <= k < |s| ==> !keep(s[k])
    ensures Filter(s, keep) == []
    decreases |s|
  {
    if |s| > 0 {
      FilterKeepsNone(s[1..], keep);
    }
  }

  /** Filtering never invents elements: it keeps a sub-multiset. */
  lemma {:induction false} FilterSubMultiset<T>(s: seq<T>, keep: T -> bool)
    ensures multiset(Filter(s, keep)) <= multiset(s)
    decreases |s|
  {
    if |s| > 0 {
      var tail := s[1..];
      var kept := Filter(tail, keep);
      FilterSubMultiset(tail, keep);
      ConsMultiset(s[0], tail);
      assert s == [s[0]] + tail;
      if keep(s[0]) {
        assert Filter(s, keep) == [s[0]] + kept;
        ConsMultiset(s[0], kept);
        MultisetAddMonotone(multiset{s[0]}, multiset(kept), multiset(tail));
      } else {
        assert Filter(s, keep) == kept;
        MultisetAddMonotone(multiset{}, multiset{s[0]}, multiset{s[0]});
        assert multiset(tail) <= multiset(s);
      }
    }
  }

  lemma MultisetAddMonotone<T>(x: multiset<T>, a: multiset<T>, b: multiset<T>)
    requires a <= b
    ensures x + a <= x + b
  {
  }

  lemma ConsMultiset<T>(x: T, s: seq<T>)
    ensures multiset([x] + s) == multiset{x} + multiset(s)
  {
  }

  /** The length drops by exactly the number of rejected elements. */
  function CountRejected<T>(s: seq<T>, keep: T -> bool): (n: nat)
    ensures n <= |s|
    decreases |s|
  {
    if |s| == 0 then 0
    else (if keep(s[0]) then 0 else 1) + CountRejected(s[1..], keep)
  }

  lemma {:induction false} FilterLength<T>(s: seq<T>, keep: T -> bool)
    ensures |Filter(s, keep)| == |s| - CountRejected(s, keep)
    decreases |s|
  {
    if |s| > 0 {
      FilterLength(s[1..], keep);
    }
  }
}
