/** The table sort of the Drivers screen: `descendingComparator`,
    `getComparator` and the decorate-sort-undecorate `stableSort`.

    The column value being compared is abstracted as a key projection
    `key: T -> K` together with the `<` of the key type, which must be a
    strict total order (JavaScript's `<` on strings is one; see
    `Text.Less`). `Array.prototype.sort` is modelled by an insertion sort:
    once ties are broken by the original index no two entries compare
    equal, so every correct sorting algorithm yields the same result
    (`SortedUnique`). */
module Sorting {

  datatype Direction = Asc | Desc

  ghost predicate StrictTotalOrder<K(!new)>(lt: (K, K) -> bool)
  {
    && (forall x :: !lt(x, x))
    && (forall x, y, z :: lt(x, y) && lt(y, z) ==> lt(x, z))
    && (forall x, y :: x != y ==> lt(x, y) || lt(y, x))
  }

  /** A comparator `Array.prototype.sort` can rely on: it is antisymmetric
      and "not after" (`<= 0`) is transitive. */
  ghost predicate Consistent<T(!new)>(cmp: (T, T) -> int)
  {
    && (forall a, b :: cmp(a, b) == -cmp(b, a))
    && (forall a, b, c :: cmp(a, b) <= 0 && cmp(b, c) <= 0 ==> cmp(a, c) <= 0)
  }

  /** `descendingComparator(a, b, orderBy)`. */
  function Descending<T, K>(a: T, b: T, key: T -> K, lt: (K, K) -> bool): (c: int)
    ensures c == -1 <==> lt(key(b), key(a))
    ensures c == 1 <==> lt(key(a), key(b)) && !lt(key(b), key(a))
    ensures c == 0 <==> !lt(key(a), key(b)) && !lt(key(b), key(a))
  {
    if lt(key(b), key(a)) then -1
    else if lt(key(a), key(b)) then 1
    else 0
  }

  /** `getComparator(order, orderBy)`: `descendingComparator` for 'desc',
      its negation otherwise. */
  function GetComparator<T(!new), K>(dir: Direction, key: T -> K, lt: (K, K) -> bool): (cmp: (T, T) -> int)
    ensures forall a, b :: cmp(a, b) < 0 <==>
              if dir == Desc then lt(key(b), key(a)) else lt(key(a), key(b)) && !lt(key(b), key(a))
    ensures forall a, b :: cmp(a, b) == 0 <==> !lt(key(a), key(b)) && !lt(key(b), key(a))
  {
    if dir == Desc then (a, b) => Descending(a, b, key, lt)
    else (a, b) => -Descending(a, b, key, lt)
  }

  /** The comparator is antisymmetric and reports a tie exactly when
      neither key is below the other. */
  lemma DescendingAntisymmetric<T, K(!new)>(a: T, b: T, key: T -> K, lt: (K, K) -> bool)
    requires StrictTotalOrder(lt)
    ensures Descending(a, b, key, lt) == -Descending(b, a, key, lt)
    ensures Descending(a, b, key, lt) == 0 <==> key(a) == key(b)
  {
  }

  /** Both directions of `getComparator` are consistent comparators. */
  lemma GetComparatorConsistent<T(!new), K(!new)>(dir: Direction, key: T -> K, lt: (K, K) -> bool)
    requires StrictTotalOrder(lt)
    ensures Consistent(GetComparator(dir, key, lt))
  {
    var cmp := GetComparator(dir, key, lt);
    forall a, b, c | cmp(a, b) <= 0 && cmp(b, c) <= 0
      ensures cmp(a, c) <= 0
    {
      if dir == Desc {
        assert !lt(key(a), key(b)) && !lt(key(b), key(c));
      } else {
        assert !lt(key(b), key(a)) && !lt(key(c), key(b));
      }
    }
  }

  /** An element paired with its original position: `[el, index]`. */
  datatype Tagged<T> = Tagged(elem: T, index: nat)

  /** `array.map((el, index) => [el, index])` */
  function Decorate<T>(xs: seq<T>): (d: seq<Tagged<T>>)
    ensures |d| == |xs|
    ensures forall i :: 0 <= i < |d| ==> d[i] == Tagged(xs[i], i)
  {
    seq(|xs|, i requires 0 <= i < |xs| => Tagged(xs[i], i))
  }

  /** `stabilizedThis.map((el) => el[0])` */
  function Undecorate<T>(d: seq<Tagged<T>>): (xs: seq<T>)
    ensures |xs| == |d|
    ensures forall i :: 0 <= i < |d| ==> xs[i] == d[i].elem
  {
    seq(|d|, i requires 0 <= i < |d| => d[i].elem)
  }

  /** The comparator handed to `sort`: the element order, and the
      original index when the elements tie. */
  function TieBroken<T>(cmp: (T, T) -> int, a: Tagged<T>, b: Tagged<T>): int
  {
    var order := cmp(a.elem, b.elem);
    if order != 0 then order else a.index - b.index
  }

  predicate Before<T>(cmp: (T, T) -> int, a: Tagged<T>, b: Tagged<T>)
  {
    TieBroken(cmp, a, b) < 0
  }

  /** Every earlier entry sorts strictly before every later one. */
  predicate SortedBy<T>(cmp: (T, T) -> int, d: seq<Tagged<T>>)
  {
    forall i, j :: 0 <= i < j < |d| ==> Before(cmp, d[i], d[j])
  }

  predicate DistinctIndices<T>(d: seq<Tagged<T>>)
  {
    forall i, j :: 0 <= i < j < |d| ==> d[i].index != d[j].index
  }

  lemma BeforeTransitive<T(!new)>(cmp: (T, T) -> int, a: Tagged<T>, b: Tagged<T>, c: Tagged<T>)
    requires Consistent(cmp)
    requires Before(cmp, a, b) && Before(cmp, b, c)
    ensures Before(cmp, a, c)
  {
    assert cmp(a.elem, b.elem) <= 0 && cmp(b.elem, c.elem) <= 0;
    if cmp(a.elem, c.elem) == 0 {
      assert cmp(c.elem, a.elem) <= 0;
      assert cmp(b.elem, a.elem) <= 0;
      assert cmp(c.elem, b.elem) <= 0;
    }
  }

  /** Two distinct tags are always ordered one way or the other. */
  lemma BeforeTotal<T(!new)>(cmp: (T, T) -> int, a: Tagged<T>, b: Tagged<T>)
    requires Consistent(cmp)
    requires a.index != b.index
    ensures Before(cmp, a, b) != Before(cmp, b, a)
  {
    assert cmp(a.elem, b.elem) == -cmp(b.elem, a.elem);
  }

  /** Insertion of one entry into a sorted run. */
  function Insert<T>(cmp: (T, T) -> int, x: Tagged<T>, d: seq<Tagged<T>>): (r: seq<Tagged<T>>)
    ensures multiset(r) == multiset(d) + multiset{x}
    ensures |r| == |d| + 1
  {
    if |d| == 0 then [x]
    else if Before(cmp, x, d[0]) then [x] + d
    else
      assert d == [d[0]] + d[1..];
      [d[0]] + Insert(cmp, x, d[1..])
  }

  /** The sort of `stabilizedThis`: insertion sort under the tie-broken
      comparator. */
  function SortTagged<T>(cmp: (T, T) -> int, d: seq<Tagged<T>>): (r: seq<Tagged<T>>)
    ensures multiset(r) == multiset(d)
    ensures |r| == |d|
  {
    if |d| == 0 then []
    else
      assert d == [d[0]] + d[1..];
      Insert(cmp, d[0], SortTagged(cmp, d[1..]))
  }

  /** An entry of a permutation of `d[1..]` is some `d[j]` with `j > 0`. */
  lemma InTail<T>(d: seq<Tagged<T>>, r: seq<Tagged<T>>, k: int)
    requires |d| > 0 && multiset(r) == multiset(d[1..])
    requires 0 <= k < |r|
    ensures exists j :: 1 <= j < |d| && d[j] == r[k]
  {
    assert r[k] in multiset(d[1..]);
    var j :| 0 <= j < |d[1..]| && d[1..][j] == r[k];
    assert d[j + 1] == r[k];
  }

  lemma {:induction false} InsertSorted<T(!new)>(cmp: (T, T) -> int, x: Tagged<T>, d: seq<Tagged<T>>)
    requires Consistent(cmp)
    requires SortedBy(cmp, d)
    requires forall i :: 0 <= i < |d| ==> d[i].index != x.index
    ensures SortedBy(cmp, Insert(cmp, x, d))
  {
    if |d| == 0 {
    } else if Before(cmp, x, d[0]) {
      var r := [x] + d;
      forall i, j | 0 <= i < j < |r|
        ensures Before(cmp, r[i], r[j])
      {
        if i == 0 && j > 1 {
          BeforeTransitive(cmp, x, d[0], d[j - 1]);
        }
      }
    } else {
      BeforeTotal(cmp, x, d[0]);
      InsertSorted(cmp, x, d[1..]);
      var rest := Insert(cmp, x, d[1..]);
      var r := [d[0]] + rest;
      forall i, j | 0 <= i < j < |r|
        ensures Before(cmp, r[i], r[j])
      {
        if i == 0 {
          var y := rest[j - 1];
          assert y in multiset(rest);
          if y != x {
            assert y in multiset(d[1..]);
            var m :| 0 <= m < |d[1..]| && d[1..][m] == y;
            assert d[m + 1] == y;
          }
        } else {
          assert r[i] == rest[i - 1] && r[j] == rest[j - 1];
        }
      }
    }
  }

  lemma {:induction false} SortTaggedSorted<T(!new)>(cmp: (T, T) -> int, d: seq<Tagged<T>>)
    requires Consistent(cmp)
    requires DistinctIndices(d)
    ensures SortedBy(cmp, SortTagged(cmp, d))
  {
    if |d| > 0 {
      SortTaggedSorted(cmp, d[1..]);
      var rest := SortTagged(cmp, d[1..]);
      forall i | 0 <= i < |rest|
        ensures rest[i].index != d[0].index
      {
        InTail(d, rest, i);
      }
      InsertSorted(cmp, d[0], rest);
    }
  }

  /** Every entry of a permutation of `Decorate(xs)` is some element of
      `xs` tagged with its own position. */
  lemma PermutationOfDecorated<T>(xs: seq<T>, r: seq<Tagged<T>>, k: int)
    requires multiset(r) == multiset(Decorate(xs))
    requires 0 <= k < |r|
    ensures r[k].index < |xs| && r[k].elem == xs[r[k].index]
  {
    assert r[k] in multiset(Decorate(xs));
    var j :| 0 <= j < |xs| && Decorate(xs)[j] == r[k];
  }

  lemma UndecorateCons<T>(y: Tagged<T>, d: seq<Tagged<T>>)
    ensures Undecorate([y] + d) == [y.elem] + Undecorate(d)
  {
  }

  lemma {:induction false} UndecorateInsert<T>(cmp: (T, T) -> int, x: Tagged<T>, d: seq<Tagged<T>>)
    ensures multiset(Undecorate(Insert(cmp, x, d))) == multiset(Undecorate(d)) + multiset{x.elem}
  {
    if |d| == 0 {
      UndecorateCons(x, d);
    } else if Before(cmp, x, d[0]) {
      UndecorateCons(x, d);
    } else {
      UndecorateInsert(cmp, x, d[1..]);
      UndecorateCons(d[0], Insert(cmp, x, d[1..]));
      UndecorateCons(d[0], d[1..]);
      assert d == [d[0]] + d[1..];
    }
  }

  lemma {:induction false} UndecorateSort<T>(cmp: (T, T) -> int, d: seq<Tagged<T>>)
    ensures multiset(Undecorate(SortTagged(cmp, d))) == multiset(Undecorate(d))
  {
    if |d| > 0 {
      UndecorateSort(cmp, d[1..]);
      UndecorateInsert(cmp, d[0], SortTagged(cmp, d[1..]));
      UndecorateCons(d[0], d[1..]);
      assert d == [d[0]] + d[1..];
    }
  }

  /** `stableSort(array, comparator)`: a sorted permutation of the input.
      The input itself is a value and is left as it was. */
  function StableSort<T(!new)>(xs: seq<T>, cmp: (T, T) -> int): (r: seq<T>)
    requires Consistent(cmp)
    ensures |r| == |xs|
    ensures multiset(r) == multiset(xs)
    ensures forall i, j :: 0 <= i < j < |r| ==> cmp(r[i], r[j]) <= 0
  {
    var d := Decorate(xs);
    var s := SortTagged(cmp, d);
    SortTaggedSorted(cmp, d);
    UndecorateSort(cmp, d);
    assert Undecorate(d) == xs;
    assert forall i, j :: 0 <= i < j < |s| ==> Before(cmp, s[i], s[j]);
    Undecorate(s)
  }

  /** Stability: the output is `xs` rearranged by a permutation `p` of its
      positions, and elements the comparator considers equal appear in
      their original relative order. */
  lemma StableSortKeepsTiesInOrder<T(!new)>(xs: seq<T>, cmp: (T, T) -> int)
    requires Consistent(cmp)
    ensures var r := StableSort(xs, cmp);
            var p := SortTagged(cmp, Decorate(xs));
            && |p| == |r|
            && (forall k :: 0 <= k < |p| ==> p[k].index < |xs| && r[k] == xs[p[k].index])
            && (forall k, l :: 0 <= k < l < |p| ==> p[k].index != p[l].index)
            && (forall k, l :: 0 <= k < l < |p| && cmp(r[k], r[l]) == 0 ==> p[k].index < p[l].index)
  {
    var d := Decorate(xs);
    var p := SortTagged(cmp, d);
    SortTaggedSorted(cmp, d);
    forall k | 0 <= k < |p|
      ensures p[k].index < |xs| && p[k].elem == xs[p[k].index]
    {
      PermutationOfDecorated(xs, p, k);
    }
    forall k, l | 0 <= k < l < |p|
      ensures p[k].index != p[l].index
    {
      assert Before(cmp, p[k], p[l]);
    }
  }

  lemma BeforeAsymmetric<T(!new)>(cmp: (T, T) -> int, a: Tagged<T>, b: Tagged<T>)
    requires Consistent(cmp)
    ensures !(Before(cmp, a, b) && Before(cmp, b, a))
  {
    assert cmp(a.elem, b.elem) == -cmp(b.elem, a.elem);
  }

  /** The head of a sorted run sorts before every other entry of it. */
  lemma HeadFirst<T>(cmp: (T, T) -> int, s: seq<Tagged<T>>, y: Tagged<T>)
    requires SortedBy(cmp, s)
    requires y in multiset(s)
    ensures y == s[0] || Before(cmp, s[0], y)
  {
    var k :| 0 <= k < |s| && s[k] == y;
  }

  /** Two strictly sorted sequences holding the same entries are equal. */
  lemma {:induction false} SortedUnique<T(!new)>(cmp: (T, T) -> int, a: seq<Tagged<T>>, b: seq<Tagged<T>>)
    requires Consistent(cmp)
    requires SortedBy(cmp, a) && SortedBy(cmp, b)
    requires multiset(a) == multiset(b)
    ensures a == b
    decreases |a|
  {
    if |a| == 0 {
      assert |multiset(b)| == 0;
    } else {
      assert a[0] in multiset(b);
      assert b[0] in multiset(a);
      HeadFirst(cmp, a, b[0]);
      HeadFirst(cmp, b, a[0]);
      BeforeAsymmetric(cmp, a[0], b[0]);
      assert a[0] == b[0];
      assert a == [a[0]] + a[1..] && b == [b[0]] + b[1..];
      assert multiset(a[1..]) == multiset(a) - multiset{a[0]};
      assert multiset(b[1..]) == multiset(b) - multiset{b[0]};
      SortedUnique(cmp, a[1..], b[1..]);
    }
  }

  /** Sorting a sorted table again changes nothing: sorting twice with the
      same comparator gives the same order as sorting once. */
  lemma StableSortIdempotent<T(!new)>(xs: seq<T>, cmp: (T, T) -> int)
    requires Consistent(cmp)
    ensures StableSort(StableSort(xs, cmp), cmp) == StableSort(xs, cmp)
  {
    var ys := StableSort(xs, cmp);
    var d := Decorate(ys);
    assert SortedBy(cmp, d) by {
      forall i, j | 0 <= i < j < |d| ensures Before(cmp, d[i], d[j]) {
        assert cmp(ys[i], ys[j]) <= 0;
      }
    }
    var s := SortTagged(cmp, d);
    SortTaggedSorted(cmp, d);
    SortedUnique(cmp, s, d);
    assert Undecorate(d) == ys;
  }

  /** Ascending order yields non-decreasing keys and descending order
      non-increasing keys. */
  lemma DirectionOrdersKeys<T(!new), K(!new)>(xs: seq<T>, dir: Direction, key: T -> K, lt: (K, K) -> bool)
    requires StrictTotalOrder(lt)
    ensures Consistent(GetComparator(dir, key, lt))
    ensures var r := StableSort(xs, GetComparator(dir, key, lt));
            forall i, j :: 0 <= i < j < |r| ==>
              if dir == Asc then !lt(key(r[j]), key(r[i])) else !lt(key(r[i]), key(r[j]))
  {
    GetComparatorConsistent(dir, key, lt);
    var cmp := GetComparator(dir, key, lt);
    var r := StableSort(xs, cmp);
    forall i, j | 0 <= i < j < |r|
      ensures if dir == Asc then !lt(key(r[j]), key(r[i])) else !lt(key(r[i]), key(r[j]))
    {
      assert cmp(r[i], r[j]) <= 0;
    }
  }
}
