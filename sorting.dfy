/** Sorting a sequence by a key, largest key first: the ordering that
    `OrderByDescending` on a LINQ sequence and SQLite's `ORDER BY ... DESC`
    produce.  The sort here is a stable insertion sort; the lemmas below
    prove that its result is ordered, is a permutation of its input and keeps
    the input order among equal keys. */
module Sorting {

  /** `less` is a strict total order on the keys. */
  ghost predicate IsStrictTotalOrder<K(!new)>(less: (K, K) -> bool) {
    && (forall a :: !less(a, a))
    && (forall a, b, c :: less(a, b) && less(b, c) ==> less(a, c))
    && (forall a, b :: a == b || less(a, b) || less(b, a))
  }

  /** No element is followed by one with a larger key. */
  ghost predicate SortedDesc<T, K>(xs: seq<T>, key: T -> K, less: (K, K) -> bool) {
    forall i, j :: 0 <= i < j < |xs| ==> !less(key(xs[i]), key(xs[j]))
  }

  /** The elements of `xs` whose key is `k`, in their order in `xs`. */
  function WithKey<T, K(==)>(xs: seq<T>, key: T -> K, k: K): (r: seq<T>)
    ensures |r| <= |xs|
  {
    if xs == [] then []
    else (if key(xs[0]) == k then [xs[0]] else []) + WithKey(xs[1..], key, k)
  }

  /** Puts `x` in front of the first element whose key is not larger. */
  function Insert<T, K>(x: T, ys: seq<T>, key: T -> K, less: (K, K) -> bool): (r: seq<T>)
    ensures |r| == |ys| + 1
  {
    if ys == [] || !less(key(x), key(ys[0])) then [x] + ys
    else [ys[0]] + Insert(x, ys[1..], key, less)
  }

  /** Stable sort, largest key first. */
  function SortDesc<T, K>(xs: seq<T>, key: T -> K, less: (K, K) -> bool): (r: seq<T>)
    ensures |r| == |xs|
  {
    if xs == [] then [] else Insert(xs[0], SortDesc(xs[1..], key, less), key, less)
  }

  // ---------------------------------------------------------------------
  // Insert

  lemma {:induction false} InsertSorted<T, K(!new)>(x: T, ys: seq<T>, key: T -> K, less: (K, K) -> bool)
    requires IsStrictTotalOrder(less) && SortedDesc(ys, key, less)
    ensures SortedDesc(Insert(x, ys, key, less), key, less)
  {
    if ys == [] || !less(key(x), key(ys[0])) {
      var r := [x] + ys;
      forall i, j | 0 <= i < j < |r|
        ensures !less(key(r[i]), key(r[j]))
      {
        if i == 0 {
          if j > 1 {
            assert !less(key(ys[0]), key(ys[j - 1]));
          }
        } else {
          assert r[i] == ys[i - 1] && r[j] == ys[j - 1];
        }
      }
    } else {
      var rest := Insert(x, ys[1..], key, less);
      assert SortedDesc(ys[1..], key, less) by {
        forall i, j | 0 <= i < j < |ys| - 1
          ensures !less(key(ys[1..][i]), key(ys[1..][j]))
        {
          assert ys[1..][i] == ys[i + 1] && ys[1..][j] == ys[j + 1];
        }
      }
      InsertSorted(x, ys[1..], key, less);
      InsertElements(x, ys[1..], key, less);
      var r := [ys[0]] + rest;
      forall i, j | 0 <= i < j < |r|
        ensures !less(key(r[i]), key(r[j]))
      {
        if i == 0 {
          assert r[j] in multiset([x] + ys[1..]);
          assert r[j] == x || r[j] in ys[1..];
          if r[j] != x {
            var k :| 0 <= k < |ys[1..]| && ys[1..][k] == r[j];
            assert ys[k + 1] == r[j];
          }
        } else {
          assert r[i] == rest[i - 1] && r[j] == rest[j - 1];
        }
      }
    }
  }

  lemma {:induction false} InsertElements<T, K>(x: T, ys: seq<T>, key: T -> K, less: (K, K) -> bool)
    ensures multiset(Insert(x, ys, key, less)) == multiset([x] + ys)
  {
    if ys == [] || !less(key(x), key(ys[0])) {
    } else {
      InsertElements(x, ys[1..], key, less);
      assert [x] + ys == [x] + [ys[0]] + ys[1..];
      assert ys == [ys[0]] + ys[1..];
    }
  }

  lemma {:induction false} InsertKeepsTies<T, K(!new)>(x: T, ys: seq<T>, key: T -> K, less: (K, K) -> bool, k: K)
    requires IsStrictTotalOrder(less)
    ensures WithKey(Insert(x, ys, key, less), key, k) == WithKey([x] + ys, key, k)
  {
    if ys == [] || !less(key(x), key(ys[0])) {
    } else {
      InsertKeepsTies(x, ys[1..], key, less, k);
      var y := ys[0];
      assert ([y] + Insert(x, ys[1..], key, less))[1..] == Insert(x, ys[1..], key, less);
      assert ([x] + ys[1..])[1..] == ys[1..];
      assert ([x] + ys)[1..] == ys;
      assert key(x) != key(y);
    }
  }

  // ---------------------------------------------------------------------
  // SortDesc

  /** The sorted sequence is ordered, largest key first. */
  lemma {:induction false} SortDescSorted<T, K(!new)>(xs: seq<T>, key: T -> K, less: (K, K) -> bool)
    requires IsStrictTotalOrder(less)
    ensures SortedDesc(SortDesc(xs, key, less), key, less)
  {
    if xs != [] {
      SortDescSorted(xs[1..], key, less);
      InsertSorted(xs[0], SortDesc(xs[1..], key, less), key, less);
    }
  }

  /** The sorted sequence holds every element exactly as often as the input. */
  lemma {:induction false} SortDescPermutes<T, K>(xs: seq<T>, key: T -> K, less: (K, K) -> bool)
    ensures multiset(SortDesc(xs, key, less)) == multiset(xs)
  {
    if xs != [] {
      SortDescPermutes(xs[1..], key, less);
      InsertElements(xs[0], SortDesc(xs[1..], key, less), key, less);
      assert xs == [xs[0]] + xs[1..];
    }
  }

  /** Stability: the elements with any one key keep their input order. */
  lemma {:induction false} SortDescStable<T, K(!new)>(xs: seq<T>, key: T -> K, less: (K, K) -> bool, k: K)
    requires IsStrictTotalOrder(less)
    ensures WithKey(SortDesc(xs, key, less), key, k) == WithKey(xs, key, k)
  {
    if xs != [] {
      var rest := SortDesc(xs[1..], key, less);
      SortDescStable(xs[1..], key, less, k);
      InsertKeepsTies(xs[0], rest, key, less, k);
      assert ([xs[0]] + rest)[1..] == rest;
    }
  }
}
