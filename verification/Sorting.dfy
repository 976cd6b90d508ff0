/** Stable sorting by an integer key, as the node sorts candidates by nonce and peers by identifier. */
module Sorting {

  function Insert<T>(xs: seq<T>, x: T, key: T -> int): seq<T> {
    if xs == [] || key(xs[|xs| - 1]) <= key(x) then xs + [x]
    else Insert(xs[..|xs| - 1], x, key) + [xs[|xs| - 1]]
  }

  function SortBy<T>(xs: seq<T>, key: T -> int): seq<T> {
    if xs == [] then [] else Insert(SortBy(xs[..|xs| - 1], key), xs[|xs| - 1], key)
  }

  predicate Sorted<T>(xs: seq<T>, key: T -> int) {
    forall i, j :: 0 <= i < j < |xs| ==> key(xs[i]) <= key(xs[j])
  }

  lemma SortedSnoc<T>(xs: seq<T>, x: T, key: T -> int)
    requires Sorted(xs, key) && forall i :: 0 <= i < |xs| ==> key(xs[i]) <= key(x)
    ensures Sorted(xs + [x], key)
  {}

  lemma {:induction false} InsertSorts<T>(xs: seq<T>, x: T, key: T -> int)
    requires Sorted(xs, key)
    ensures Sorted(Insert(xs, x, key), key) && multiset(Insert(xs, x, key)) == multiset(xs) + multiset{x}
  {
    if xs == [] || key(xs[|xs| - 1]) <= key(x) {
      SortedSnoc(xs, x, key);
    } else {
      var n := |xs| - 1;
      var ys := Insert(xs[..n], x, key);
      InsertSorts(xs[..n], x, key);
      assert xs == xs[..n] + [xs[n]];
      forall i | 0 <= i < |ys|
        ensures key(ys[i]) <= key(xs[n])
      {
        assert ys[i] in multiset(ys);
        assert ys[i] == x || ys[i] in xs[..n];
      }
      SortedSnoc(ys, xs[n], key);
    }
  }

  lemma MultisetSnoc<T>(xs: seq<T>)
    requires xs != []
    ensures multiset(xs) == multiset(xs[..|xs| - 1]) + multiset{xs[|xs| - 1]}
    ensures multiset(xs[..|xs| - 1]) == multiset(xs) - multiset{xs[|xs| - 1]}
  {
    assert xs == xs[..|xs| - 1] + [xs[|xs| - 1]];
  }

  /** The sort orders by key and keeps the entries. */
  lemma {:induction false} SortSorts<T>(xs: seq<T>, key: T -> int)
    ensures Sorted(SortBy(xs, key), key) && multiset(SortBy(xs, key)) == multiset(xs)
  {
    if xs != [] {
      var n := |xs| - 1;
      SortSorts(xs[..n], key);
      InsertSorts(SortBy(xs[..n], key), xs[n], key);
      MultisetSnoc(xs);
    }
  }

  /** The entries with key `k`, in order. */
  function WithKey<T>(xs: seq<T>, key: T -> int, k: int): seq<T> {
    if xs == [] then []
    else WithKey(xs[..|xs| - 1], key, k) + (if key(xs[|xs| - 1]) == k then [xs[|xs| - 1]] else [])
  }

  lemma WithKeySnoc<T>(xs: seq<T>, x: T, key: T -> int, k: int)
    ensures WithKey(xs + [x], key, k) == WithKey(xs, key, k) + (if key(x) == k then [x] else [])
  {
    assert (xs + [x])[..|xs|] == xs;
  }

  lemma {:induction false} InsertIsStable<T>(xs: seq<T>, x: T, key: T -> int, k: int)
    ensures WithKey(Insert(xs, x, key), key, k) == WithKey(xs, key, k) + (if key(x) == k then [x] else [])
  {
    if xs == [] || key(xs[|xs| - 1]) <= key(x) {
      WithKeySnoc(xs, x, key, k);
    } else {
      var n := |xs| - 1;
      InsertIsStable(xs[..n], x, key, k);
      WithKeySnoc(Insert(xs[..n], x, key), xs[n], key, k);
    }
  }

  /** The sort keeps those of equal key in their order. */
  lemma {:induction false} SortIsStable<T>(xs: seq<T>, key: T -> int, k: int)
    ensures WithKey(SortBy(xs, key), key, k) == WithKey(xs, key, k)
  {
    if xs != [] {
      var n := |xs| - 1;
      SortIsStable(xs[..n], key, k);
      InsertIsStable(SortBy(xs[..n], key), xs[n], key, k);
    }
  }

  lemma {:induction false} SortedIsKept<T>(xs: seq<T>, key: T -> int)
    requires Sorted(xs, key)
    ensures SortBy(xs, key) == xs
  {
    if xs != [] {
      SortedIsKept(xs[..|xs| - 1], key);
    }
  }
}
