/**
 * Rust's `slice::sort_by_key`, which src/bot.rs calls twice: a stable sort by an integer
 * key. Modelled as insertion sort on sequences; what matters to the callers is that the
 * result is ordered by key and that elements with equal keys keep their relative order.
 */
module Sorting {

  ghost predicate SortedBy<T>(s: seq<T>, key: T -> int) {
    forall i, j :: 0 <= i < j < |s| ==> key(s[i]) <= key(s[j])
  }

  /** The elements of `s` whose key is `k`, in their order in `s`. */
  function WithKey<T>(s: seq<T>, key: T -> int, k: int): (r: seq<T>)
    ensures |r| <= |s|
  {
    if s == [] then []
    else (if key(s[0]) == k then [s[0]] else []) + WithKey(s[1..], key, k)
  }

  /** Puts `x` before the first element whose key is not smaller than its own. */
  function Insert<T>(x: T, s: seq<T>, key: T -> int): (r: seq<T>)
    ensures multiset(r) == multiset(s) + multiset{x}
  {
    if s == [] || key(x) <= key(s[0]) then [x] + s
    else
      assert s == [s[0]] + s[1..];
      [s[0]] + Insert(x, s[1..], key)
  }

  lemma {:induction false} InsertKeepsSorted<T>(x: T, s: seq<T>, key: T -> int)
    requires SortedBy(s, key)
    ensures SortedBy(Insert(x, s, key), key)
  {
    if s != [] && key(x) > key(s[0]) {
      var rest := Insert(x, s[1..], key);
      InsertKeepsSorted(x, s[1..], key);
      assert s == [s[0]] + s[1..];
      forall y | y in rest ensures key(s[0]) <= key(y) {
        assert y in multiset(rest);
      }
    }
  }

  function SortByKey<T>(s: seq<T>, key: T -> int): (r: seq<T>)
    ensures SortedBy(r, key)
    ensures multiset(r) == multiset(s)
  {
    if s == [] then []
    else
      assert s == [s[0]] + s[1..];
      var sortedRest := SortByKey(s[1..], key);
      InsertKeepsSorted(s[0], sortedRest, key);
      Insert(s[0], sortedRest, key)
  }

  lemma {:induction false} InsertKeepsKeyOrder<T>(x: T, s: seq<T>, key: T -> int, k: int)
    requires SortedBy(s, key)
    ensures WithKey(Insert(x, s, key), key, k) == (if key(x) == k then [x] else []) + WithKey(s, key, k)
  {
    if s == [] || key(x) <= key(s[0]) {
      assert ([x] + s)[1..] == s;
    } else {
      var rest := Insert(x, s[1..], key);
      InsertKeepsKeyOrder(x, s[1..], key, k);
      assert ([s[0]] + rest)[1..] == rest;
    }
  }

  /** Stability: for every key, the elements carrying it come out in their input order. */
  lemma {:induction false} SortByKeyIsStable<T>(s: seq<T>, key: T -> int, k: int)
    ensures WithKey(SortByKey(s, key), key, k) == WithKey(s, key, k)
  {
    if s != [] {
      SortByKeyIsStable(s[1..], key, k);
      InsertKeepsKeyOrder(s[0], SortByKey(s[1..], key), key, k);
    }
  }

  lemma {:induction false} WithAbsentKey<T>(s: seq<T>, key: T -> int, k: int)
    requires forall i :: 0 <= i < |s| ==> key(s[i]) != k
    ensures WithKey(s, key, k) == []
  {
    if s != [] {
      WithAbsentKey(s[1..], key, k);
    }
  }

  /** A sequence sorted by a key that is 0 or 1 is its 0-part followed by its 1-part. */
  lemma {:induction false} SortedTwoKeysSplit<T>(s: seq<T>, key: T -> int)
    requires SortedBy(s, key)
    requires forall i :: 0 <= i < |s| ==> key(s[i]) == 0 || key(s[i]) == 1
    ensures s == WithKey(s, key, 0) + WithKey(s, key, 1)
  {
    if s != [] {
      SortedTwoKeysSplit(s[1..], key);
      if key(s[0]) == 1 {
        WithAbsentKey(s[1..], key, 0);
      }
    }
  }
}
