/** Generic sequence operations mirroring Python list comprehensions and slicing. */
module Seqs {

  /** `[x for x in s if p(x)]`: the elements of `s` satisfying `p`, in order. */
  function Filter<T>(s: seq<T>, p: T -> bool): (r: seq<T>)
    ensures |r| <= |s|
    ensures forall i :: 0 <= i < |r| ==> p(r[i])
  {
    if s == [] then []
    else (if p(s[0]) then [s[0]] else []) + Filter(s[1..], p)
  }

  /** One unfolding of `Filter` on a sequence written as head and tail. */
  lemma FilterCons<T>(x: T, s: seq<T>, p: T -> bool)
    ensures Filter([x] + s, p) == (if p(x) then [x] else []) + Filter(s, p)
  {
    assert ([x] + s)[1..] == s;
  }

  /** An element is kept exactly when it occurs in `s` and satisfies `p`. */
  lemma {:induction false} FilterMember<T>(s: seq<T>, p: T -> bool, x: T)
    ensures x in Filter(s, p) <==> x in s && p(x)
  {
    if s != [] {
      FilterMember(s[1..], p, x);
      assert s == [s[0]] + s[1..];
    }
  }

  /** A value satisfying `p` is kept as often as it occurs in `s`; any other value never. */
  lemma {:induction false} FilterMultiset<T>(s: seq<T>, p: T -> bool, x: T)
    ensures multiset(Filter(s, p))[x] == if p(x) then multiset(s)[x] else 0
  {
    if s != [] {
      FilterMultiset(s[1..], p, x);
      assert s == [s[0]] + s[1..];
    }
  }

  /** A sub-multiset is no larger. */
  lemma SubMultisetSize<T>(a: multiset<T>, b: multiset<T>)
    requires a <= b
    ensures |a| <= |b|
  {
    assert b == a + (b - a);
  }

  /** Every element of the filtered sequence sits at some position of `s`. */
  lemma FilterSource<T>(s: seq<T>, p: T -> bool, j: int) returns (m: int)
    requires 0 <= j < |Filter(s, p)|
    ensures 0 <= m < |s| && s[m] == Filter(s, p)[j]
  {
    FilterMember(s, p, Filter(s, p)[j]);
    m :| 0 <= m < |s| && s[m] == Filter(s, p)[j];
  }

  /** No two positions of `s` carry the same `f` value. */
  ghost predicate DistinctBy<T, K>(s: seq<T>, f: T -> K)
  {
    forall i, j :: 0 <= i < j < |s| ==> f(s[i]) != f(s[j])
  }

  /** Filtering cannot introduce a repeated `f` value. */
  lemma {:induction false} FilterDistinct<T, K>(s: seq<T>, p: T -> bool, f: T -> K)
    requires DistinctBy(s, f)
    ensures DistinctBy(Filter(s, p), f)
  {
    if s != [] {
      var s' := s[1..];
      assert DistinctBy(s', f) by {
        forall i, j | 0 <= i < j < |s'| ensures f(s'[i]) != f(s'[j]) {
          assert s'[i] == s[i + 1] && s'[j] == s[j + 1];
        }
      }
      FilterDistinct(s', p, f);
      var r' := Filter(s', p);
      if p(s[0]) {
        forall j | 0 <= j < |r'| ensures f(s[0]) != f(r'[j]) {
          var m := FilterSource(s', p, j);
          assert s[m + 1] == r'[j];
        }
        assert Filter(s, p) == [s[0]] + r';
      }
    }
  }

  /** Keeping everything keeps the sequence unchanged. */
  lemma {:induction false} FilterAll<T>(s: seq<T>, p: T -> bool)
    requires forall i :: 0 <= i < |s| ==> p(s[i])
    ensures Filter(s, p) == s
  {
    if s != [] {
      FilterAll(s[1..], p);
    }
  }

  /** `r` is obtained from `s` by deleting some elements, keeping the order of the rest. */
  ghost predicate IsSubsequence<T>(r: seq<T>, s: seq<T>)
    decreases |s|
  {
    r == [] || (s != [] && ((r[0] == s[0] && IsSubsequence(r[1..], s[1..])) || IsSubsequence(r, s[1..])))
  }

  /** A filter keeps the order of the elements it keeps. */
  lemma {:induction false} FilterIsSubsequence<T>(s: seq<T>, p: T -> bool)
    ensures IsSubsequence(Filter(s, p), s)
  {
    if s != [] {
      FilterIsSubsequence(s[1..], p);
      if p(s[0]) {
        assert Filter(s, p) == [s[0]] + Filter(s[1..], p);
        assert Filter(s, p)[1..] == Filter(s[1..], p);
      } else {
        assert Filter(s, p) == Filter(s[1..], p);
      }
    }
  }

  function Min(a: int, b: int): int { if a <= b then a else b }

  /**
   * Python's `s[lo:hi]` for non-negative bounds: both bounds are clipped to the length,
   * and an empty range yields the empty list rather than an error.
   */
  function Slice<T>(s: seq<T>, lo: nat, hi: nat): (r: seq<T>)
    ensures |r| == if lo >= Min(hi, |s|) then 0 else Min(hi, |s|) - lo
    ensures forall k :: 0 <= k < |r| ==> lo + k < |s| && r[k] == s[lo + k]
  {
    var h := Min(hi, |s|);
    if lo >= h then [] else s[lo..h]
  }
}
