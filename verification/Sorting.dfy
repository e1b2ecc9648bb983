/**
 * Sorting by a key whose values are all different. The sort keeps the elements, puts them in strict order,
 * and there is only one such order: whatever sequence the elements come in, the sorted sequence is the same.
 */
module Sorting {
  import opened Gathering

  ghost predicate StrictTotal<K(!new)>(less: (K, K) -> bool) {
    && (forall a :: !less(a, a))
    && (forall a, b, c :: less(a, b) && less(b, c) ==> less(a, c))
    && (forall a, b :: a != b ==> less(a, b) || less(b, a))
  }

  predicate DistinctKeys<T, K(==)>(xs: seq<T>, key: T -> K) {
    forall i, j :: 0 <= i < j < |xs| ==> key(xs[i]) != key(xs[j])
  }

  predicate SortedBy<T, K>(xs: seq<T>, key: T -> K, less: (K, K) -> bool) {
    forall i, j :: 0 <= i < j < |xs| ==> less(key(xs[i]), key(xs[j]))
  }

  function Insert<T, K>(x: T, xs: seq<T>, key: T -> K, less: (K, K) -> bool): seq<T> {
    if xs == [] || less(key(x), key(xs[0])) then [x] + xs else [xs[0]] + Insert(x, xs[1..], key, less)
  }

  function SortBy<T, K>(xs: seq<T>, key: T -> K, less: (K, K) -> bool): seq<T> {
    if xs == [] then [] else Insert(xs[0], SortBy(xs[1..], key, less), key, less)
  }

  lemma {:induction false} InsertBag<T, K(!new)>(x: T, xs: seq<T>, key: T -> K, less: (K, K) -> bool)
    ensures multiset(Insert(x, xs, key, less)) == multiset{x} + multiset(xs)
  {
    if xs != [] && !less(key(x), key(xs[0])) {
      InsertBag(x, xs[1..], key, less);
      assert xs == [xs[0]] + xs[1..];
    }
  }

  /** Sorting keeps the elements. */
  lemma {:induction false} SortBag<T, K(!new)>(xs: seq<T>, key: T -> K, less: (K, K) -> bool)
    ensures multiset(SortBy(xs, key, less)) == multiset(xs)
  {
    if xs != [] {
      InsertBag(xs[0], SortBy(xs[1..], key, less), key, less);
      SortBag(xs[1..], key, less);
      assert xs == [xs[0]] + xs[1..];
    }
  }

  lemma {:induction false} InsertSorted<T, K(!new)>(x: T, xs: seq<T>, key: T -> K, less: (K, K) -> bool)
    requires StrictTotal(less) && SortedBy(xs, key, less)
    requires forall i :: 0 <= i < |xs| ==> key(xs[i]) != key(x)
    ensures SortedBy(Insert(x, xs, key, less), key, less)
  {
    if xs != [] && !less(key(x), key(xs[0])) {
      InsertSorted(x, xs[1..], key, less);
      var rest := Insert(x, xs[1..], key, less);
      InsertBag(x, xs[1..], key, less);
      forall j | 0 <= j < |rest|
        ensures less(key(xs[0]), key(rest[j]))
      {
        assert rest[j] in multiset{x} + multiset(xs[1..]);
      }
    }
  }

  lemma {:induction false} SortSorts<T, K(!new)>(xs: seq<T>, key: T -> K, less: (K, K) -> bool)
    requires StrictTotal(less) && DistinctKeys(xs, key)
    ensures SortedBy(SortBy(xs, key, less), key, less)
  {
    if xs != [] {
      var rest := SortBy(xs[1..], key, less);
      SortSorts(xs[1..], key, less);
      SortBag(xs[1..], key, less);
      forall i | 0 <= i < |rest|
        ensures key(rest[i]) != key(xs[0])
      {
        assert rest[i] in multiset(xs[1..]);
      }
      InsertSorted(xs[0], rest, key, less);
    }
  }

  lemma FirstIsFirst<T, K(!new)>(xs: seq<T>, ys: seq<T>, key: T -> K, less: (K, K) -> bool)
    requires StrictTotal(less) && SortedBy(xs, key, less) && SortedBy(ys, key, less)
    requires multiset(xs) == multiset(ys) && xs != [] && ys != []
    ensures xs[0] == ys[0]
  {
    assert xs[0] in multiset(ys) && ys[0] in multiset(xs);
    var j :| 0 <= j < |ys| && ys[j] == xs[0];
    var i :| 0 <= i < |xs| && xs[i] == ys[0];
  }

  /** There is one sorted order. */
  lemma {:induction false} SortedUnique<T, K(!new)>(xs: seq<T>, ys: seq<T>, key: T -> K, less: (K, K) -> bool)
    requires StrictTotal(less) && SortedBy(xs, key, less) && SortedBy(ys, key, less)
    requires multiset(xs) == multiset(ys)
    ensures xs == ys
  {
    if xs == [] {
      EmptyPermutation(xs, ys);
    } else {
      if ys == [] {
        EmptyPermutation(ys, xs);
      }
      FirstIsFirst(xs, ys, key, less);
      assert xs == [xs[0]] + xs[1..] && ys == [ys[0]] + ys[1..];
      Cancel(xs[0], multiset(xs[1..]), multiset(ys[1..]));
      SortedUnique(xs[1..], ys[1..], key, less);
    }
  }
}
