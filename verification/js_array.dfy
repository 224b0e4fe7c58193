/** The three `Array.prototype` methods the game-ID pipeline chains:
    `filter`, `map` and `sort` with a caller-supplied comparator. The
    comparator is abstract: `le(a, b)` stands for `compare(a, b) <= 0`. */
module JsArray {

  /** `le` orders every pair one way or the other and is transitive; ties
      between distinct values are allowed (as `localeCompare` allows them). */
  ghost predicate TotalPreorder<T(!new)>(le: (T, T) -> bool) {
    && (forall a, b :: le(a, b) || le(b, a))
    && (forall a, b, c :: le(a, b) && le(b, c) ==> le(a, c))
  }

  /** No two distinct values tie under `le`. */
  ghost predicate Antisymmetric<T(!new)>(le: (T, T) -> bool) {
    forall a, b :: le(a, b) && le(b, a) ==> a == b
  }

  ghost predicate SortedBy<T>(le: (T, T) -> bool, xs: seq<T>) {
    forall i, j :: 0 <= i < j < |xs| ==> le(xs[i], xs[j])
  }

  /** `xs.filter(p)`: the elements satisfying `p`, each as often as in `xs`. */
  function Filter<T(!new)>(p: T -> bool, xs: seq<T>): (r: seq<T>)
    ensures |r| <= |xs|
    ensures forall x :: multiset(r)[x] == if p(x) then multiset(xs)[x] else 0
  {
    if xs == [] then []
    else
      assert xs == [xs[0]] + xs[1..];
      (if p(xs[0]) then [xs[0]] else []) + Filter(p, xs[1..])
  }

  lemma {:induction false} FilterOfAppend<T(!new)>(p: T -> bool, xs: seq<T>, ys: seq<T>)
    ensures Filter(p, xs + ys) == Filter(p, xs) + Filter(p, ys)
    decreases |xs|
  {
    if xs == [] {
      assert xs + ys == ys;
    } else {
      assert (xs + ys)[1..] == xs[1..] + ys;
      FilterOfAppend(p, xs[1..], ys);
    }
  }

  /** Filtering keeps everything when every element passes. */
  lemma {:induction false} FilterOfAllPassing<T(!new)>(p: T -> bool, xs: seq<T>)
    requires forall i :: 0 <= i < |xs| ==> p(xs[i])
    ensures Filter(p, xs) == xs
    decreases |xs|
  {
    if xs != [] {
      FilterOfAllPassing(p, xs[1..]);
      assert xs == [xs[0]] + xs[1..];
    }
  }

  /** Filtering respects permutation. */
  lemma FilterOfPermutation<T(!new)>(p: T -> bool, xs: seq<T>, ys: seq<T>)
    requires multiset(xs) == multiset(ys)
    ensures multiset(Filter(p, xs)) == multiset(Filter(p, ys))
  {
    forall x
      ensures multiset(Filter(p, xs))[x] == multiset(Filter(p, ys))[x]
    {
    }
  }

  /** `xs.map(f)`. */
  function Map<T, U>(f: T -> U, xs: seq<T>): (r: seq<U>)
    ensures |r| == |xs|
    ensures forall i :: 0 <= i < |xs| ==> r[i] == f(xs[i])
  {
    seq(|xs|, i requires 0 <= i < |xs| => f(xs[i]))
  }

  /** Places `x` in front of the first element it is `le` to; in front of
      equal elements, so an earlier element keeps its place before later ties. */
  function Insert<T>(le: (T, T) -> bool, x: T, xs: seq<T>): (r: seq<T>)
    ensures multiset(r) == multiset(xs) + multiset{x}
  {
    if xs == [] || le(x, xs[0]) then [x] + xs
    else
      assert xs == [xs[0]] + xs[1..];
      [xs[0]] + Insert(le, x, xs[1..])
  }

  /** `xs.sort(compare)`, as a stable insertion sort. */
  function Sort<T>(le: (T, T) -> bool, xs: seq<T>): (r: seq<T>)
    ensures multiset(r) == multiset(xs)
  {
    if xs == [] then []
    else
      assert xs == [xs[0]] + xs[1..];
      Insert(le, xs[0], Sort(le, xs[1..]))
  }

  lemma {:induction false} InsertKeepsSorted<T(!new)>(le: (T, T) -> bool, x: T, xs: seq<T>)
    requires TotalPreorder(le)
    requires SortedBy(le, xs)
    ensures SortedBy(le, Insert(le, x, xs))
  {
    if xs == [] || le(x, xs[0]) {
    } else {
      var rest := Insert(le, x, xs[1..]);
      InsertKeepsSorted(le, x, xs[1..]);
      var r := [xs[0]] + rest;
      forall j | 0 < j < |r|
        ensures le(xs[0], r[j])
      {
        assert r[j] in multiset(rest);
        assert r[j] == x || r[j] in multiset(xs[1..]);
        if r[j] != x {
          var k :| 0 <= k < |xs[1..]| && xs[1..][k] == r[j];
          assert xs[k + 1] == r[j];
        }
      }
    }
  }

  /** The comparator-driven sort returns its input in ascending order. */
  lemma {:induction false} SortIsSorted<T(!new)>(le: (T, T) -> bool, xs: seq<T>)
    requires TotalPreorder(le)
    ensures SortedBy(le, Sort(le, xs))
  {
    if xs != [] {
      SortIsSorted(le, xs[1..]);
      InsertKeepsSorted(le, xs[0], Sort(le, xs[1..]));
    }
  }

  /** Two sorted arrangements of one collection start with the same element
      when the comparator has no ties. */
  lemma SortedPermutationsShareHead<T(!new)>(le: (T, T) -> bool, a: seq<T>, b: seq<T>)
    requires Antisymmetric(le)
    requires SortedBy(le, a) && SortedBy(le, b)
    requires multiset(a) == multiset(b)
    requires a != []
    ensures b != [] && a[0] == b[0]
  {
    assert a[0] in multiset(b);
    var k :| 0 <= k < |b| && b[k] == a[0];
    assert b[0] in multiset(a);
    var m :| 0 <= m < |a| && a[m] == b[0];
    if m > 0 && k > 0 {
      assert le(a[0], a[m]) && le(b[0], b[k]);
    }
  }

  /** Under a comparator with no ties, the sorted order of a collection does
      not depend on the order the elements arrived in. */
  lemma {:induction false} SortedPermutationsAgree<T(!new)>(le: (T, T) -> bool, a: seq<T>, b: seq<T>)
    requires Antisymmetric(le)
    requires SortedBy(le, a) && SortedBy(le, b)
    requires multiset(a) == multiset(b)
    ensures a == b
    decreases |a|
  {
    if a == [] {
      assert |b| == |multiset(b)| == 0;
    } else {
      SortedPermutationsShareHead(le, a, b);
      assert multiset(a[1..]) == multiset(a) - multiset{a[0]} by {
        assert a == [a[0]] + a[1..];
      }
      assert multiset(b[1..]) == multiset(b) - multiset{b[0]} by {
        assert b == [b[0]] + b[1..];
      }
      assert SortedBy(le, a[1..]) && SortedBy(le, b[1..]);
      SortedPermutationsAgree(le, a[1..], b[1..]);
      assert a == [a[0]] + a[1..] && b == [b[0]] + b[1..];
    }
  }

  lemma MapOfAppend<T, U>(f: T -> U, xs: seq<T>, ys: seq<T>)
    ensures Map(f, xs + ys) == Map(f, xs) + Map(f, ys)
  {
  }

  /** Mapping respects permutation: the multiset of images depends only on
      the multiset of arguments. */
  lemma {:induction false} MapOfPermutation<T, U>(f: T -> U, xs: seq<T>, ys: seq<T>)
    requires multiset(xs) == multiset(ys)
    ensures multiset(Map(f, xs)) == multiset(Map(f, ys))
    decreases |xs|
  {
    if xs == [] {
      assert |ys| == |multiset(ys)| == 0;
    } else {
      assert xs[0] in multiset(ys);
      var k :| 0 <= k < |ys| && ys[k] == xs[0];
      var rest := ys[..k] + ys[k + 1..];
      assert ys == ys[..k] + [ys[k]] + ys[k + 1..];
      assert xs == [xs[0]] + xs[1..];
      assert multiset(rest) == multiset(ys[..k]) + multiset(ys[k + 1..]);
      assert multiset(rest) == multiset(ys) - multiset{xs[0]};
      assert multiset(xs[1..]) == multiset(xs) - multiset{xs[0]};
      assert multiset(xs[1..]) == multiset(rest);
      MapOfPermutation(f, xs[1..], rest);
      MapOfAppend(f, [xs[0]], xs[1..]);
      MapOfAppend(f, ys[..k], ys[k + 1..]);
      MapOfAppend(f, ys[..k] + [ys[k]], ys[k + 1..]);
      MapOfAppend(f, ys[..k], [ys[k]]);
    }
  }
}
