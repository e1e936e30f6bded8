/** Stable sorting by an integer key, as `std::stable_sort` promises it. */
module StableSort {
  import opened Text

  predicate Ascending<T>(xs: seq<T>, key: T -> int) {
    forall a, b :: 0 <= a < b < |xs| ==> key(xs[a]) <= key(xs[b])
  }

  predicate Descending<T>(xs: seq<T>, key: T -> int) {
    forall a, b :: 0 <= a < b < |xs| ==> key(xs[a]) >= key(xs[b])
  }

  /** The elements with a given key, in their order. */
  function WithKey<T>(xs: seq<T>, key: T -> int, k: int): seq<T>
    decreases |xs|
  {
    if xs == [] then []
    else if key(Back(xs)) == k then WithKey(Front(xs), key, k) + [Back(xs)]
    else WithKey(Front(xs), key, k)
  }

  /** Put `x` after all elements whose key is not larger. */
  function Insert<T>(xs: seq<T>, key: T -> int, x: T): (r: seq<T>)
    ensures |r| == |xs| + 1
    decreases |xs|
  {
    if xs == [] || key(Back(xs)) <= key(x) then xs + [x]
    else Insert(Front(xs), key, x) + [Back(xs)]
  }

  function Sort<T>(xs: seq<T>, key: T -> int): (r: seq<T>)
    ensures |r| == |xs|
    decreases |xs|
  {
    if xs == [] then [] else Insert(Sort(Front(xs), key), key, Back(xs))
  }

  predicate AtMost<T>(xs: seq<T>, key: T -> int, bound: int) {
    forall a :: 0 <= a < |xs| ==> key(xs[a]) <= bound
  }

  lemma Split<T>(xs: seq<T>)
    requires xs != []
    ensures xs == Front(xs) + [Back(xs)] && |Front(xs)| < |xs|
    ensures multiset(xs) == multiset(Front(xs)) + multiset{Back(xs)}
  {
    assert xs == Front(xs) + [Back(xs)];
  }

  lemma SnocWithKey<T>(xs: seq<T>, key: T -> int, k: int, x: T)
    ensures WithKey(xs + [x], key, k) == if key(x) == k then WithKey(xs, key, k) + [x] else WithKey(xs, key, k)
  {
    assert Front(xs + [x]) == xs;
  }

  lemma {:induction false} InsertBounded<T>(xs: seq<T>, key: T -> int, x: T, bound: int)
    requires AtMost(xs, key, bound) && key(x) <= bound
    ensures AtMost(Insert(xs, key, x), key, bound)
    decreases |xs|
  {
    if xs != [] && key(Back(xs)) > key(x) {
      InsertBounded(Front(xs), key, x, bound);
    }
  }

  lemma {:induction false} InsertAscends<T>(xs: seq<T>, key: T -> int, x: T)
    requires Ascending(xs, key)
    ensures Ascending(Insert(xs, key, x), key)
    decreases |xs|
  {
    if xs != [] && key(Back(xs)) > key(x) {
      InsertAscends(Front(xs), key, x);
      InsertBounded(Front(xs), key, x, key(Back(xs)));
    }
  }

  lemma {:induction false} InsertIsPermutation<T>(xs: seq<T>, key: T -> int, x: T)
    ensures multiset(Insert(xs, key, x)) == multiset(xs) + multiset{x}
    decreases |xs|
  {
    if xs != [] && key(Back(xs)) > key(x) {
      Split(xs);
      InsertIsPermutation(Front(xs), key, x);
    }
  }

  lemma {:induction false} InsertWithKey<T>(xs: seq<T>, key: T -> int, x: T, k: int)
    ensures WithKey(Insert(xs, key, x), key, k) == WithKey(xs + [x], key, k)
    decreases |xs|
  {
    if xs != [] && key(Back(xs)) > key(x) {
      hide WithKey, Front, Back;
      var front, last := Front(xs), Back(xs);
      Split(xs);
      InsertWithKey(front, key, x, k);
      SnocWithKey(xs, key, k, x);
      SnocWithKey(front, key, k, x);
      SnocWithKey(front, key, k, last);
      SnocWithKey(Insert(front, key, x), key, k, last);
    }
  }

  /** The result is a permutation in ascending order that keeps the order of elements with equal
      keys. */
  lemma {:induction false} SortIsStable<T>(xs: seq<T>, key: T -> int, k: int)
    ensures Ascending(Sort(xs, key), key)
    ensures multiset(Sort(xs, key)) == multiset(xs)
    ensures WithKey(Sort(xs, key), key, k) == WithKey(xs, key, k)
    decreases |xs|
  {
    if xs != [] {
      hide Insert, WithKey, Ascending, Front, Back;
      var front, last := Front(xs), Back(xs);
      var sorted := Sort(front, key);
      Split(xs);
      SortIsStable(front, key, k);
      InsertAscends(sorted, key, last);
      InsertIsPermutation(sorted, key, last);
      InsertWithKey(sorted, key, last, k);
      SnocWithKey(sorted, key, k, last);
      SnocWithKey(front, key, k, last);
    }
  }

  lemma {:induction false} WithKeyFinds<T>(xs: seq<T>, key: T -> int, k: int)
    ensures WithKey(xs, key, k) != [] ==> exists a :: 0 <= a < |xs| && key(xs[a]) == k
    decreases |xs|
  {
    if xs != [] && key(Back(xs)) != k {
      WithKeyFinds(Front(xs), key, k);
      if WithKey(xs, key, k) != [] {
        var a :| 0 <= a < |Front(xs)| && key(Front(xs)[a]) == k;
        assert key(xs[a]) == k;
      }
    }
  }

  lemma LastKeys<T>(xs: seq<T>, ys: seq<T>, key: T -> int)
    requires Ascending(ys, key) && xs != []
    requires WithKey(xs, key, key(Back(xs))) == WithKey(ys, key, key(Back(xs)))
    ensures ys != [] && key(Back(xs)) <= key(Back(ys))
  {
    WithKeyFinds(ys, key, key(Back(xs)));
    var a :| 0 <= a < |ys| && key(ys[a]) == key(Back(xs));
    if a < |ys| - 1 {
      assert key(ys[a]) <= key(ys[|ys| - 1]);
    }
  }

  /** Those two properties leave one result only: whatever algorithm has them returns it. */
  lemma {:induction false} StableResultIsUnique<T>(xs: seq<T>, ys: seq<T>, key: T -> int)
    requires Ascending(xs, key) && Ascending(ys, key)
    requires forall k :: WithKey(xs, key, k) == WithKey(ys, key, k)
    ensures xs == ys
    decreases |xs|
  {
    if xs == [] {
      if ys != [] {
        LastKeys(ys, xs, key);
      }
    } else {
      LastKeys(xs, ys, key);
      LastKeys(ys, xs, key);
      var top := key(Back(xs));
      assert WithKey(xs, key, top) == WithKey(ys, key, top);
      assert Back(WithKey(xs, key, top)) == Back(xs) && Back(WithKey(ys, key, top)) == Back(ys);
      forall k
        ensures WithKey(Front(xs), key, k) == WithKey(Front(ys), key, k)
      {
        assert WithKey(xs, key, k) == WithKey(ys, key, k);
        if k == top {
          assert Front(WithKey(xs, key, k)) == WithKey(Front(xs), key, k);
          assert Front(WithKey(ys, key, k)) == WithKey(Front(ys), key, k);
        }
      }
      StableResultIsUnique(Front(xs), Front(ys), key);
      assert xs == Front(xs) + [Back(xs)] && ys == Front(ys) + [Back(ys)];
    }
  }

  // ----- reading backwards -----

  function Reverse<T>(xs: seq<T>): (r: seq<T>)
    ensures |r| == |xs|
  {
    if xs == [] then [] else [Back(xs)] + Reverse(Front(xs))
  }

  lemma {:induction false} ReverseAt<T>(xs: seq<T>, i: nat)
    requires i < |xs|
    ensures Reverse(xs)[i] == xs[|xs| - 1 - i]
  {
    if i != 0 {
      ReverseAt(Front(xs), i - 1);
    }
  }

  lemma {:induction false} ConsWithKey<T>(x: T, xs: seq<T>, key: T -> int, k: int)
    ensures WithKey([x] + xs, key, k) == if key(x) == k then [x] + WithKey(xs, key, k) else WithKey(xs, key, k)
    decreases |xs|
  {
    if xs == [] {
      assert Front([x]) == [] && [x] + xs == [x];
    } else {
      ConsWithKey(x, Front(xs), key, k);
      assert Front([x] + xs) == [x] + Front(xs) && Back([x] + xs) == Back(xs);
    }
  }

  lemma {:induction false} ReverseWithKey<T>(xs: seq<T>, key: T -> int, k: int)
    ensures WithKey(Reverse(xs), key, k) == Reverse(WithKey(xs, key, k))
    ensures multiset(Reverse(xs)) == multiset(xs)
    decreases |xs|
  {
    if xs != [] {
      ReverseWithKey(Front(xs), key, k);
      ConsWithKey(Back(xs), Reverse(Front(xs)), key, k);
      assert xs == Front(xs) + [Back(xs)];
      if key(Back(xs)) == k {
        assert Front(WithKey(xs, key, k)) == WithKey(Front(xs), key, k);
      }
    }
  }

  lemma ReverseDescends<T>(xs: seq<T>, key: T -> int)
    requires Ascending(xs, key)
    ensures Descending(Reverse(xs), key)
  {
    forall a, b | 0 <= a < b < |xs|
      ensures key(Reverse(xs)[a]) >= key(Reverse(xs)[b])
    {
      ReverseAt(xs, a);
      ReverseAt(xs, b);
      assert key(xs[|xs| - 1 - b]) <= key(xs[|xs| - 1 - a]);
    }
  }
}
