/** `Array.prototype.filter` over sequences, and what it means: the order-preserving
    subsequence of exactly the elements that satisfy the predicate. */
module Seqs {

  /** `s.filter(p)`: the elements of `s` that satisfy `p`, in their order in `s`. */
  function Filter<T>(s: seq<T>, p: T -> bool): (r: seq<T>)
    ensures |r| <= |s|
    ensures forall k :: 0 <= k < |r| ==> r[k] in s && p(r[k])
    ensures forall i :: 0 <= i < |s| && p(s[i]) ==> s[i] in r
  {
    if s == [] then [] else Filter(s[..|s| - 1], p) + (if p(s[|s| - 1]) then [s[|s| - 1]] else [])
  }

  /** Appending one element appends it to the filter exactly when it satisfies `p`. */
  lemma FilterSnoc<T>(s: seq<T>, x: T, p: T -> bool)
    ensures Filter(s + [x], p) == Filter(s, p) + (if p(x) then [x] else [])
  {
    assert (s + [x])[..|s|] == s;
  }

  /** The positions of `s` whose element satisfies `p`, in increasing order. */
  function MatchingIndices<T>(s: seq<T>, p: T -> bool): seq<nat> {
    if s == [] then [] else MatchingIndices(s[..|s| - 1], p) + (if p(s[|s| - 1]) then [|s| - 1] else [])
  }

  /** The filter picks out `s` at exactly the positions whose element satisfies `p`,
      in increasing order: it is the order-preserving subsequence of all the matches. */
  lemma {:induction false} FilterSelectsMatchingIndices<T>(s: seq<T>, p: T -> bool)
    ensures var idx := MatchingIndices(s, p);
      && |Filter(s, p)| == |idx|
      && (forall k :: 0 <= k < |idx| ==> idx[k] < |s| && Filter(s, p)[k] == s[idx[k]])
      && (forall k, l :: 0 <= k < l < |idx| ==> idx[k] < idx[l])
      && (forall i: nat :: i < |s| ==> (i in idx <==> p(s[i])))
  {
    if s != [] {
      var n := |s| - 1;
      var s' := s[..n];
      FilterSelectsMatchingIndices(s', p);
      var idx' := MatchingIndices(s', p);
      var idx := MatchingIndices(s, p);
      assert forall k :: 0 <= k < |idx'| ==> idx'[k] < n;
      forall i: nat | i < |s| ensures i in idx <==> p(s[i]) {
        if i < n {
          assert s'[i] == s[i];
          assert i in idx <==> i in idx';
        }
      }
    }
  }

  /** Filtering a concatenation filters each part. */
  lemma {:induction false} FilterConcat<T>(a: seq<T>, b: seq<T>, p: T -> bool)
    ensures Filter(a + b, p) == Filter(a, p) + Filter(b, p)
    decreases |b|
  {
    if b != [] {
      var n := |b| - 1;
      assert (a + b)[..|a + b| - 1] == a + b[..n];
      FilterConcat(a, b[..n], p);
    } else {
      assert a + b == a;
    }
  }

  /** When every element satisfies `p`, the filter keeps the whole sequence. */
  lemma {:induction false} FilterKeepsAll<T>(s: seq<T>, p: T -> bool)
    requires forall x :: x in s ==> p(x)
    ensures Filter(s, p) == s
  {
    if s != [] {
      FilterKeepsAll(s[..|s| - 1], p);
    }
  }

  /** Filtering by `p` and then by `q` is filtering once by their conjunction `pq`. */
  lemma {:induction false} FilterTwice<T>(s: seq<T>, p: T -> bool, q: T -> bool, pq: T -> bool)
    requires forall x :: pq(x) == (p(x) && q(x))
    ensures Filter(Filter(s, p), q) == Filter(s, pq)
  {
    if s != [] {
      var n := |s| - 1;
      FilterTwice(s[..n], p, q, pq);
      FilterConcat(Filter(s[..n], p), if p(s[n]) then [s[n]] else [], q);
    }
  }

  /** Filtering again by the same predicate changes nothing. */
  lemma FilterIdempotent<T>(s: seq<T>, p: T -> bool)
    ensures Filter(Filter(s, p), p) == Filter(s, p)
  {
    FilterTwice(s, p, p, p);
  }

  /** A predicate and its complement `np` split the sequence: their filters' lengths add up to it. */
  lemma {:induction false} FilterSplits<T>(s: seq<T>, p: T -> bool, np: T -> bool)
    requires forall x :: np(x) == !p(x)
    ensures |Filter(s, p)| + |Filter(s, np)| == |s|
  {
    if s != [] {
      FilterSplits(s[..|s| - 1], p, np);
    }
  }

  /** No element occurs twice. */
  predicate Distinct<T(==)>(s: seq<T>) {
    forall i, j :: 0 <= i < j < |s| ==> s[i] != s[j]
  }

  /** A filter of a sequence without repetitions has none either. */
  lemma {:induction false} FilterDistinct<T>(s: seq<T>, p: T -> bool)
    requires Distinct(s)
    ensures Distinct(Filter(s, p))
  {
    if s != [] {
      var n := |s| - 1;
      assert Distinct(s[..n]);
      FilterDistinct(s[..n], p);
      assert s[n] !in s[..n];
    }
  }
}
