/** Order-preserving selection over sequences: the `Array.prototype.filter`
    and `slice(0, n)` the store and the pages use, with the facts the rest of
    the model needs about them. */
module Seqs {

  /** `xs` is obtained from `ys` by deleting elements, keeping order. */
  predicate IsSubsequence<T(==)>(xs: seq<T>, ys: seq<T>)
    decreases |ys|
  {
    if |xs| == 0 then true
    else if |ys| == 0 then false
    else if xs[0] == ys[0] then IsSubsequence(xs[1..], ys[1..])
    else IsSubsequence(xs, ys[1..])
  }

  /** No two elements share a key. */
  predicate DistinctKeys<T, K(==)>(s: seq<T>, key: T -> K) {
    forall i, j :: 0 <= i < j < |s| ==> key(s[i]) != key(s[j])
  }

  /** `Array.prototype.filter`: the elements satisfying `keep`, in order. */
  function Filter<T>(s: seq<T>, keep: T -> bool): (r: seq<T>)
    ensures |r| <= |s|
    ensures forall i :: 0 <= i < |r| ==> r[i] in s && keep(r[i])
    ensures forall i :: 0 <= i < |s| && keep(s[i]) ==> s[i] in r
    decreases |s|
  {
    if |s| == 0 then []
    else if keep(s[0]) then [s[0]] + Filter(s[1..], keep)
    else Filter(s[1..], keep)
  }

  /** The filter keeps every passing element as many times as it occurs, and
      drops every other one. */
  lemma {:induction false} FilterCount<T>(s: seq<T>, keep: T -> bool)
    ensures forall i :: 0 <= i < |s| ==>
      multiset(Filter(s, keep))[s[i]] == if keep(s[i]) then multiset(s)[s[i]] else 0
    decreases |s|
  {
    if |s| > 0 {
      FilterCount(s[1..], keep);
      assert s == [s[0]] + s[1..];
    }
  }

  /** `slice(0, n)`: the first `n` elements, or all of them if there are fewer. */
  function Take<T>(s: seq<T>, n: nat): (r: seq<T>)
    ensures |r| == if |s| < n then |s| else n
    ensures r <= s
  {
    if |s| < n then s else s[..n]
  }

  lemma {:induction false} SubsequenceRefl<T>(s: seq<T>)
    ensures IsSubsequence(s, s)
    decreases |s|
  {
    if |s| > 0 {
      SubsequenceRefl(s[1..]);
    }
  }

  lemma {:induction false} SubsequenceDropFirst<T>(xs: seq<T>, ys: seq<T>)
    requires |xs| > 0 && IsSubsequence(xs, ys)
    ensures IsSubsequence(xs[1..], ys)
    decreases |ys|, 1
  {
    if xs[0] == ys[0] {
      SubsequenceOfTailOnly(xs[1..], ys);
    } else {
      SubsequenceDropFirst(xs, ys[1..]);
      SubsequenceOfTailOnly(xs[1..], ys);
    }
  }

  /** Adding the head of `ys` back keeps a subsequence of its tail a subsequence. */
  lemma {:induction false} SubsequenceOfTailOnly<T>(xs: seq<T>, ys: seq<T>)
    requires |ys| > 0 && IsSubsequence(xs, ys[1..])
    ensures IsSubsequence(xs, ys)
    decreases |ys|, 0
  {
    if |xs| > 0 && xs[0] == ys[0] {
      SubsequenceDropFirst(xs, ys[1..]);
    }
  }

  /** A filter result is an order-preserving subsequence of its input. */
  lemma {:induction false} FilterIsSubsequence<T>(s: seq<T>, keep: T -> bool)
    ensures IsSubsequence(Filter(s, keep), s)
    decreases |s|
  {
    if |s| > 0 {
      FilterIsSubsequence(s[1..], keep);
      if keep(s[0]) {
        assert Filter(s, keep) == [s[0]] + Filter(s[1..], keep);
        assert (Filter(s, keep))[1..] == Filter(s[1..], keep);
      } else {
        SubsequenceOfTailOnly(Filter(s[1..], keep), s);
      }
    }
  }

  /** Filtering with a predicate that holds everywhere changes nothing. */
  lemma {:induction false} FilterAll<T>(s: seq<T>, keep: T -> bool)
    requires forall i :: 0 <= i < |s| ==> keep(s[i])
    ensures Filter(s, keep) == s
    decreases |s|
  {
    if |s| > 0 {
      FilterAll(s[1..], keep);
    }
  }

  /** A stronger filter selects a subsequence of what a weaker one selects. */
  lemma {:induction false} FilterMonotone<T>(s: seq<T>, strong: T -> bool, weak: T -> bool)
    requires forall x :: strong(x) ==> weak(x)
    ensures IsSubsequence(Filter(s, strong), Filter(s, weak))
    decreases |s|
  {
    if |s| > 0 {
      FilterMonotone(s[1..], strong, weak);
      var a, b := Filter(s[1..], strong), Filter(s[1..], weak);
      if strong(s[0]) {
        assert Filter(s, strong) == [s[0]] + a;
        assert Filter(s, weak) == [s[0]] + b;
        assert ([s[0]] + a)[1..] == a;
        assert ([s[0]] + b)[1..] == b;
      } else if weak(s[0]) {
        assert Filter(s, weak) == [s[0]] + b;
        assert ([s[0]] + b)[1..] == b;
        SubsequenceOfTailOnly(a, [s[0]] + b);
      }
    }
  }

  /** Filtering keeps keys distinct. */
  lemma {:induction false} FilterKeepsDistinct<T, K>(s: seq<T>, keep: T -> bool, key: T -> K)
    requires DistinctKeys(s, key)
    ensures DistinctKeys(Filter(s, keep), key)
    decreases |s|
  {
    if |s| > 0 {
      var tail := Filter(s[1..], keep);
      FilterKeepsDistinct(s[1..], keep, key);
      if keep(s[0]) {
        var r := [s[0]] + tail;
        forall j | 0 < j < |r|
          ensures key(r[0]) != key(r[j])
        {
          assert r[j] == tail[j - 1];
          assert r[j] in s[1..];
          var k :| 0 <= k < |s[1..]| && s[1..][k] == r[j];
          assert s[k + 1] == r[j];
        }
      }
    }
  }
}
