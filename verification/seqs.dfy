/** Generic sequence operations Ruby's `Array` and `Enumerable` provide. */
module Seqs {

  /** `Array#include?`: a linear scan comparing each element with `x`. */
  function Includes<T(==,!new)>(s: seq<T>, x: T): (b: bool)
    ensures b <==> x in s
  {
    if |s| == 0 then false else s[0] == x || Includes(s[1..], x)
  }

  /**
   * `Enumerable#select`: the elements satisfying `p`, in their original order.
   * `reject` and `Array#-` are filters by the negated predicate.
   */
  function Filter<T(==,!new)>(s: seq<T>, p: T -> bool): (r: seq<T>)
    ensures |r| <= |s|
    ensures forall x :: x in r <==> x in s && p(x)
  {
    if |s| == 0 then []
    else (if p(s[0]) then [s[0]] else []) + Filter(s[1..], p)
  }

  /** `r` is `s` with some elements left out: the elements of `r` occur in `s` in the same order. */
  predicate IsSubsequence<T(==)>(r: seq<T>, s: seq<T>)
    decreases |s|
  {
    if |r| == 0 then true
    else if |s| == 0 then false
    else (r[0] == s[0] && IsSubsequence(r[1..], s[1..])) || IsSubsequence(r, s[1..])
  }

  /** A filter keeps the order of what it keeps. */
  lemma {:induction false} FilterSubsequence<T(!new)>(s: seq<T>, p: T -> bool)
    ensures IsSubsequence(Filter(s, p), s)
    decreases |s|
  {
    if |s| > 0 {
      FilterSubsequence(s[1..], p);
      var rest := Filter(s[1..], p);
      if p(s[0]) {
        assert Filter(s, p) == [s[0]] + rest;
        assert Filter(s, p)[1..] == rest;
      } else {
        assert Filter(s, p) == rest;
      }
    }
  }

  /** A filter keeps every passing element as often as it occurs, and nothing else. */
  lemma {:induction false} FilterCounts<T(!new)>(s: seq<T>, p: T -> bool)
    ensures forall x :: multiset(Filter(s, p))[x] == if p(x) then multiset(s)[x] else 0
    decreases |s|
  {
    if |s| > 0 {
      FilterCounts(s[1..], p);
      assert s == [s[0]] + s[1..];
      assert multiset(s) == multiset{s[0]} + multiset(s[1..]);
      assert Filter(s, p) == (if p(s[0]) then [s[0]] else []) + Filter(s[1..], p);
    }
  }

  /** Elements picked from `s` at increasing positions form a subsequence of `s`. */
  lemma {:induction false} PickedSubsequence<T>(r: seq<T>, s: seq<T>, idx: seq<int>)
    requires |idx| == |r|
    requires forall i :: 0 <= i < |idx| ==> 0 <= idx[i] < |s| && s[idx[i]] == r[i]
    requires forall i, j :: 0 <= i < j < |idx| ==> idx[i] < idx[j]
    ensures IsSubsequence(r, s)
    decreases |s|
  {
    if |r| > 0 {
      var shifted := seq(|idx|, i requires 0 <= i < |idx| => idx[i] - 1);
      if idx[0] == 0 {
        PickedSubsequence(r[1..], s[1..], shifted[1..]);
      } else {
        PickedSubsequence(r, s[1..], shifted);
      }
    }
  }

  /** Filtering distributes over concatenation: the filter never reorders elements. */
  lemma {:induction false} FilterConcat<T(!new)>(a: seq<T>, b: seq<T>, p: T -> bool)
    ensures Filter(a + b, p) == Filter(a, p) + Filter(b, p)
    decreases |a|
  {
    if |a| == 0 {
      assert a + b == b;
    } else {
      assert (a + b)[1..] == a[1..] + b;
      FilterConcat(a[1..], b, p);
    }
  }

  /** A sequence whose elements all pass the filter comes back unchanged. */
  lemma {:induction false} FilterKeepsAll<T(!new)>(s: seq<T>, p: T -> bool)
    requires forall x :: x in s ==> p(x)
    ensures Filter(s, p) == s
    decreases |s|
  {
    if |s| > 0 {
      assert forall x :: x in s[1..] ==> x in s;
      FilterKeepsAll(s[1..], p);
    }
  }

  /** A filter no element passes leaves nothing. */
  lemma {:induction false} FilterNone<T(!new)>(s: seq<T>, p: T -> bool)
    requires forall x :: x in s ==> !p(x)
    ensures Filter(s, p) == []
    decreases |s|
  {
    if |s| > 0 {
      assert forall x :: x in s[1..] ==> x in s;
      FilterNone(s[1..], p);
    }
  }

  /** Filtering twice by the same predicate is filtering once. */
  lemma FilterIdempotent<T(!new)>(s: seq<T>, p: T -> bool)
    ensures Filter(Filter(s, p), p) == Filter(s, p)
  {
    FilterKeepsAll(Filter(s, p), p);
  }

  /** Where the three parts of `a + (b + c)` sit in the whole. */
  lemma ConcatParts<T>(a: seq<T>, b: seq<T>, c: seq<T>)
    ensures |a + (b + c)| == |a| + |b| + |c|
    ensures (a + (b + c))[..|a|] == a
    ensures forall i :: 0 <= i < |b| ==> (a + (b + c))[|a| + i] == b[i]
    ensures (a + (b + c))[|a|..|a| + |b|] == b
    ensures |c| > 0 ==> (a + (b + c))[|a| + |b| + |c| - 1] == c[|c| - 1]
  {
    assert (a + (b + c))[..|a|] == a;
    assert (a + (b + c))[|a|..|a| + |b|] == b;
  }
}
