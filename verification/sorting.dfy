/**
 * Stable sorting by an integer key.
 *
 * JavaScript's `Array.prototype.sort` is stable, and every comparator in the
 * modelled code has the shape `(a, b) => key(a) - key(b)` (descending orders
 * negate the key). Such a sort is the unique permutation that is ordered by the
 * key and keeps elements with equal keys in their original relative order;
 * `SortByKey` computes it by insertion, and `SortIsUniqueStableOrder` shows
 * that it is that permutation.
 */
module Sorting {

  ghost predicate SortedBy<T>(xs: seq<T>, key: T -> int) {
    forall i, j :: 0 <= i < j < |xs| ==> key(xs[i]) <= key(xs[j])
  }

  /** The elements of `xs` whose key equals `k`, in their order in `xs`. */
  function WithKey<T>(xs: seq<T>, key: T -> int, k: int): seq<T>
    decreases |xs|
  {
    if |xs| == 0 then [] else (if key(xs[0]) == k then [xs[0]] else []) + WithKey(xs[1..], key, k)
  }

  /** `r` keeps every group of equal-key elements of `xs` in its original order. */
  ghost predicate StableWrt<T>(r: seq<T>, xs: seq<T>, key: T -> int) {
    forall k :: WithKey(r, key, k) == WithKey(xs, key, k)
  }

  lemma WithKeyCons<T>(x: T, ys: seq<T>, key: T -> int, k: int)
    ensures WithKey([x] + ys, key, k) == (if key(x) == k then [x] else []) + WithKey(ys, key, k)
  {
    assert ([x] + ys)[1..] == ys;
  }

  /** Inserts `x` in front of the first element of `ys` whose key is not smaller. */
  function Insert<T>(x: T, ys: seq<T>, key: T -> int): (r: seq<T>)
    ensures multiset(r) == multiset(ys) + multiset{x}
    ensures |r| == |ys| + 1
    decreases |ys|
  {
    if |ys| == 0 then [x]
    else if key(x) <= key(ys[0]) then
      assert ys == [ys[0]] + ys[1..];
      [x] + ys
    else
      assert ys == [ys[0]] + ys[1..];
      [ys[0]] + Insert(x, ys[1..], key)
  }

  lemma {:induction false} InsertSorted<T>(x: T, ys: seq<T>, key: T -> int)
    requires SortedBy(ys, key)
    ensures SortedBy(Insert(x, ys, key), key)
    decreases |ys|
  {
    if |ys| == 0 {
      assert Insert(x, ys, key) == [x];
    } else if key(x) <= key(ys[0]) {
      assert Insert(x, ys, key) == [x] + ys;
      SortedCons(x, ys, key);
    } else {
      var y, rest := ys[0], Insert(x, ys[1..], key);
      assert Insert(x, ys, key) == [y] + rest;
      assert SortedBy(rest, key) by {
        SortedTail(ys, key);
        InsertSorted(x, ys[1..], key);
      }
      assert forall j :: 0 <= j < |rest| ==> key(y) <= key(rest[j]) by {
        forall j | 0 <= j < |rest| ensures key(y) <= key(rest[j]) {
          assert rest[j] in multiset(rest);
          assert rest[j] == x || rest[j] in ys[1..];
        }
      }
      SortedCons(y, rest, key);
    }
  }

  /** An element no greater than the head of a sorted sequence can be put in front of it. */
  lemma SortedCons<T>(a: T, s: seq<T>, key: T -> int)
    requires SortedBy(s, key)
    requires |s| == 0 || key(a) <= key(s[0])
    ensures SortedBy([a] + s, key)
  {
    var r := [a] + s;
    forall i, j | 0 <= i < j < |r| ensures key(r[i]) <= key(r[j]) {
      if i > 0 {
        assert r[i] == s[i - 1] && r[j] == s[j - 1];
      } else {
        assert r[j] == s[j - 1];
        assert key(s[0]) <= key(s[j - 1]) || j == 1;
      }
    }
  }

  /** Insertion places `x` ahead of every element with its key: the equal-key groups of `ys` are only extended at the front. */
  lemma {:induction false} InsertWithKey<T>(x: T, ys: seq<T>, key: T -> int, k: int)
    ensures WithKey(Insert(x, ys, key), key, k) == (if key(x) == k then [x] else []) + WithKey(ys, key, k)
    decreases |ys|
  {
    if |ys| == 0 {
      assert Insert(x, ys, key) == [x] + ys;
      WithKeyCons(x, ys, key, k);
    } else if key(x) <= key(ys[0]) {
      assert Insert(x, ys, key) == [x] + ys;
      WithKeyCons(x, ys, key, k);
    } else {
      InsertWithKey(x, ys[1..], key, k);
      InsertPastHead(x, ys, key, k);
    }
  }

  /** The step of `InsertWithKey` where `x` goes past the head of `ys`, whose key is smaller. */
  lemma InsertPastHead<T>(x: T, ys: seq<T>, key: T -> int, k: int)
    requires |ys| > 0 && key(x) > key(ys[0])
    requires WithKey(Insert(x, ys[1..], key), key, k) == (if key(x) == k then [x] else []) + WithKey(ys[1..], key, k)
    ensures WithKey(Insert(x, ys, key), key, k) == (if key(x) == k then [x] else []) + WithKey(ys, key, k)
  {
    var y, tail := ys[0], ys[1..];
    var rest := Insert(x, tail, key);
    assert Insert(x, ys, key) == [y] + rest;
    assert ys == [y] + tail;
    WithKeyCons(y, rest, key, k);
    WithKeyCons(y, tail, key, k);
    var w, wr := WithKey(tail, key, k), WithKey(rest, key, k);
    if key(y) == k {
      assert key(x) != k && wr == w;
      assert WithKey(ys, key, k) == [y] + w;
      assert WithKey(Insert(x, ys, key), key, k) == [y] + w;
    } else {
      assert WithKey(ys, key, k) == w;
      assert WithKey(Insert(x, ys, key), key, k) == wr;
    }
  }

  /** Stable insertion sort of `xs` into ascending order of `key`. */
  function SortByKey<T>(xs: seq<T>, key: T -> int): (r: seq<T>)
    ensures multiset(r) == multiset(xs)
    ensures |r| == |xs|
    ensures SortedBy(r, key)
    ensures StableWrt(r, xs, key)
    decreases |xs|
  {
    if |xs| == 0 then []
    else
      var rest := SortByKey(xs[1..], key);
      assert xs == [xs[0]] + xs[1..];
      assert multiset(xs) == multiset{xs[0]} + multiset(xs[1..]);
      InsertSorted(xs[0], rest, key);
      assert StableWrt(Insert(xs[0], rest, key), xs, key) by {
        forall k ensures WithKey(Insert(xs[0], rest, key), key, k) == WithKey(xs, key, k) {
          InsertWithKey(xs[0], rest, key, k);
          WithKeyCons(xs[0], xs[1..], key, k);
        }
      }
      Insert(xs[0], rest, key)
  }

  /**
   * There is only one stable, key-ordered permutation of a sequence, so any
   * correct stable sort (in particular the one the JavaScript engine runs)
   * returns exactly `SortByKey`.
   */
  lemma {:induction false} SortIsUniqueStableOrder<T>(xs: seq<T>, r: seq<T>, key: T -> int)
    requires multiset(r) == multiset(xs)
    requires SortedBy(r, key)
    requires StableWrt(r, xs, key)
    ensures r == SortByKey(xs, key)
  {
    var s := SortByKey(xs, key);
    SortedStableUnique(r, s, key);
  }

  lemma {:induction false} SortedStableUnique<T>(ys: seq<T>, zs: seq<T>, key: T -> int)
    requires multiset(ys) == multiset(zs)
    requires SortedBy(ys, key) && SortedBy(zs, key)
    requires StableWrt(ys, zs, key)
    ensures ys == zs
    decreases |ys|
  {
    if |ys| == 0 {
      assert |zs| == |multiset(zs)| == 0;
    } else {
      SameHead(ys, zs, key);
      assert ys[1..] == zs[1..] by {
        TailMultiset(ys);
        TailMultiset(zs);
        SortedTail(ys, key);
        SortedTail(zs, key);
        StableTails(ys, zs, key);
        SortedStableUnique(ys[1..], zs[1..], key);
      }
      ConsEqual(ys, zs);
    }
  }

  lemma SortedTail<T>(xs: seq<T>, key: T -> int)
    requires |xs| > 0 && SortedBy(xs, key)
    ensures SortedBy(xs[1..], key)
  {
    assert forall i :: 0 <= i < |xs| - 1 ==> xs[1..][i] == xs[i + 1];
  }

  /** Dropping a common first element keeps two arrangements stable with respect to each other. */
  lemma StableTails<T>(ys: seq<T>, zs: seq<T>, key: T -> int)
    requires |ys| > 0 && |zs| > 0 && ys[0] == zs[0]
    requires StableWrt(ys, zs, key)
    ensures StableWrt(ys[1..], zs[1..], key)
  {
    var a := ys[0];
    assert ys == [a] + ys[1..] && zs == [a] + zs[1..];
    forall k ensures WithKey(ys[1..], key, k) == WithKey(zs[1..], key, k) {
      assert WithKey(ys, key, k) == WithKey(zs, key, k);
      WithKeyTailsAgree(a, ys[1..], zs[1..], key, k);
    }
  }

  lemma ConsEqual<T>(ys: seq<T>, zs: seq<T>)
    requires |ys| > 0 && |zs| > 0 && ys[0] == zs[0] && ys[1..] == zs[1..]
    ensures ys == zs
  {
    assert ys == [ys[0]] + ys[1..] && zs == [zs[0]] + zs[1..];
  }

  lemma TailMultiset<T>(xs: seq<T>)
    requires |xs| > 0
    ensures multiset(xs[1..]) == multiset(xs) - multiset{xs[0]}
  {
    assert xs == [xs[0]] + xs[1..];
  }

  /** Two stable key-ordered arrangements of the same elements start with the same element. */
  lemma SameHead<T>(ys: seq<T>, zs: seq<T>, key: T -> int)
    requires |ys| > 0 && multiset(ys) == multiset(zs)
    requires SortedBy(ys, key) && SortedBy(zs, key)
    requires StableWrt(ys, zs, key)
    ensures |zs| > 0 && ys[0] == zs[0]
  {
    assert |zs| == |multiset(zs)| == |multiset(ys)| == |ys|;
    var a, b := ys[0], zs[0];
    assert b in multiset(ys) && a in multiset(zs);
    var ib :| 0 <= ib < |ys| && ys[ib] == b;
    var ia :| 0 <= ia < |zs| && zs[ia] == a;
    assert key(a) <= key(b) && key(b) <= key(a);
    var k0 := key(a);
    assert ys == [a] + ys[1..] && zs == [b] + zs[1..];
    WithKeyCons(a, ys[1..], key, k0);
    WithKeyCons(b, zs[1..], key, k0);
    assert WithKey(ys, key, k0) == WithKey(zs, key, k0);
    assert WithKey(ys, key, k0) == [a] + WithKey(ys[1..], key, k0);
    assert WithKey(zs, key, k0) == [b] + WithKey(zs[1..], key, k0);
    assert a == WithKey(ys, key, k0)[0] == WithKey(zs, key, k0)[0] == b;
  }

  lemma WithKeyTailsAgree<T>(a: T, u: seq<T>, v: seq<T>, key: T -> int, k: int)
    requires WithKey([a] + u, key, k) == WithKey([a] + v, key, k)
    ensures WithKey(u, key, k) == WithKey(v, key, k)
  {
    WithKeyCons(a, u, key, k);
    WithKeyCons(a, v, key, k);
    var p, q := WithKey(u, key, k), WithKey(v, key, k);
    if key(a) == k {
      assert p == ([a] + p)[1..] == ([a] + q)[1..] == q;
    } else {
      assert [] + p == p && [] + q == q;
    }
  }

  /** A sequence already ordered by the key is left unchanged by sorting on it. */
  lemma SortSortedIsIdentity<T>(xs: seq<T>, key: T -> int)
    requires SortedBy(xs, key)
    ensures SortByKey(xs, key) == xs
  {
    SortIsUniqueStableOrder(xs, xs, key);
  }

  /** Sorting twice on the same key is the same as sorting once. */
  lemma SortIdempotent<T>(xs: seq<T>, key: T -> int)
    ensures SortByKey(SortByKey(xs, key), key) == SortByKey(xs, key)
  {
    SortSortedIsIdentity(SortByKey(xs, key), key);
  }
}
