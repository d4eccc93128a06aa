/** Counting and filtering over sequences: the model of JavaScript's
    `array.filter(p)` and `array.filter(p).length`, which every screen of the
    dashboard uses to derive its views. */
module Seqs {

  /** `a` is an order-preserving subsequence of `b`: `a` can be obtained
      from `b` by deleting elements. */
  predicate IsSubsequence<T(==)>(a: seq<T>, b: seq<T>)
    decreases |b|
  {
    |a| == 0 || (|b| > 0 && ((a[0] == b[0] && IsSubsequence(a[1..], b[1..])) || IsSubsequence(a, b[1..])))
  }

  /** `xs.filter(p).length`: how many elements of `xs` satisfy `p`. */
  function Count<T>(xs: seq<T>, p: T -> bool): (n: nat)
    ensures n <= |xs|
  {
    if |xs| == 0 then 0 else (if p(xs[0]) then 1 else 0) + Count(xs[1..], p)
  }

  /** `xs.filter(p)`: the elements of `xs` that satisfy `p`, in their
      original order; none is dropped and none is added. */
  function Filter<T(==)>(xs: seq<T>, p: T -> bool): (r: seq<T>)
    ensures |r| == Count(xs, p)
    ensures forall i :: 0 <= i < |r| ==> p(r[i])
    ensures forall i :: 0 <= i < |r| ==> r[i] in xs
    ensures forall i :: 0 <= i < |xs| && p(xs[i]) ==> xs[i] in r
    ensures IsSubsequence(r, xs)
  {
    if |xs| == 0 then []
    else if p(xs[0]) then [xs[0]] + Filter(xs[1..], p)
    else Filter(xs[1..], p)
  }

  /** Every sequence is a subsequence of itself. */
  lemma {:induction false} SubsequenceReflexive<T>(xs: seq<T>)
    ensures IsSubsequence(xs, xs)
  {
    if |xs| > 0 {
      SubsequenceReflexive(xs[1..]);
    }
  }

  /** A filter that keeps everything is the identity, and `Count` then
      reaches the length. */
  lemma {:induction false} FilterKeepsAll<T>(xs: seq<T>, p: T -> bool)
    requires forall i :: 0 <= i < |xs| ==> p(xs[i])
    ensures Filter(xs, p) == xs
    ensures Count(xs, p) == |xs|
  {
    if |xs| > 0 {
      FilterKeepsAll(xs[1..], p);
      assert xs == [xs[0]] + xs[1..];
    }
  }

  /** `Count` reaches the length exactly when every element satisfies the
      predicate, and is zero exactly when none does. */
  lemma {:induction false} CountExtremes<T>(xs: seq<T>, p: T -> bool)
    ensures Count(xs, p) == |xs| <==> forall i :: 0 <= i < |xs| ==> p(xs[i])
    ensures Count(xs, p) == 0 <==> forall i :: 0 <= i < |xs| ==> !p(xs[i])
  {
    if |xs| > 0 {
      CountExtremes(xs[1..], p);
      assert forall i :: 1 <= i < |xs| ==> xs[i] == xs[1..][i - 1];
    }
  }

  /** Counting distributes over concatenation. */
  lemma {:induction false} CountAppend<T>(a: seq<T>, b: seq<T>, p: T -> bool)
    ensures Count(a + b, p) == Count(a, p) + Count(b, p)
  {
    if |a| == 0 {
      assert a + b == b;
    } else {
      assert (a + b)[1..] == a[1..] + b;
      CountAppend(a[1..], b, p);
    }
  }

  /** No element occurs twice. */
  ghost predicate Distinct<T>(xs: seq<T>)
  {
    forall i, j :: 0 <= i < j < |xs| ==> xs[i] != xs[j]
  }

  /** Filtering a sequence without repetitions gives one without
      repetitions. */
  lemma {:induction false} FilterDistinct<T>(xs: seq<T>, p: T -> bool)
    requires Distinct(xs)
    ensures Distinct(Filter(xs, p))
  {
    if |xs| > 0 {
      FilterDistinct(xs[1..], p);
      var tail := Filter(xs[1..], p);
      var r := Filter(xs, p);
      if p(xs[0]) {
        assert r == [xs[0]] + tail;
        forall i, j | 0 <= i < j < |r|
          ensures r[i] != r[j]
        {
          assert r[j] == tail[j - 1];
          if i > 0 {
            assert r[i] == tail[i - 1];
          } else {
            var k :| 0 <= k < |xs[1..]| && xs[1..][k] == tail[j - 1];
            assert xs[k + 1] == r[j];
          }
        }
      } else {
        assert r == tail;
      }
    }
  }

  /** `Filter` on a sequence given by its first element and the rest. */
  lemma FilterCons<T>(x: T, xs: seq<T>, p: T -> bool)
    ensures Filter([x] + xs, p) == if p(x) then [x] + Filter(xs, p) else Filter(xs, p)
  {
    assert ([x] + xs)[1..] == xs;
  }

  /** Filtering by a conjunction is filtering by each conjunct in turn. */
  lemma {:induction false} FilterBoth<T>(xs: seq<T>, p: T -> bool, q: T -> bool, both: T -> bool)
    requires forall x :: both(x) == (p(x) && q(x))
    ensures Filter(xs, both) == Filter(Filter(xs, p), q)
  {
    if |xs| > 0 {
      FilterBoth(xs[1..], p, q, both);
      if p(xs[0]) {
        FilterCons(xs[0], Filter(xs[1..], p), q);
      }
    }
  }
}
