/** Order-preserving filtering and summation over sequences. */
module Seqs {
  import opened Wrappers

  /** `a` is obtained from `b` by deleting elements, without reordering the rest. */
  ghost predicate IsSubsequence<T>(a: seq<T>, b: seq<T>)
    decreases |b|
  {
    |a| == 0 || (|b| > 0 && ((a[0] == b[0] && IsSubsequence(a[1..], b[1..])) || IsSubsequence(a, b[1..])))
  }

  lemma {:induction false} SubsequenceRefl<T>(a: seq<T>)
    ensures IsSubsequence(a, a)
    decreases |a|
  {
    if |a| > 0 {
      SubsequenceRefl(a[1..]);
    }
  }

  lemma {:induction false} SubsequenceTrans<T>(a: seq<T>, b: seq<T>, c: seq<T>)
    requires IsSubsequence(a, b) && IsSubsequence(b, c)
    ensures IsSubsequence(a, c)
    decreases |c|
  {
    if |a| == 0 {
    } else if a[0] == b[0] && IsSubsequence(a[1..], b[1..]) {
      if b[0] == c[0] && IsSubsequence(b[1..], c[1..]) {
        SubsequenceTrans(a[1..], b[1..], c[1..]);
      } else {
        SubsequenceTrans(a, b, c[1..]);
      }
    } else {
      assert IsSubsequence(a, b[1..]);
      if b[0] == c[0] && IsSubsequence(b[1..], c[1..]) {
        SubsequenceTrans(a, b[1..], c[1..]);
      } else {
        SubsequenceTrans(a, b, c[1..]);
      }
    }
  }

  /**
   * The elements of `xs` satisfying `p`, in their original order (JavaScript's
   * `Array.prototype.filter`). The contract states an order-preserving
   * selection of exactly the satisfying elements; `FilterMultiset` adds that
   * every copy of a satisfying element is kept.
   */
  function Filter<T(!new)>(xs: seq<T>, p: T -> bool): (r: seq<T>)
    ensures IsSubsequence(r, xs)
    ensures forall x :: x in r <==> x in xs && p(x)
    ensures |r| <= |xs|
    decreases |xs|
  {
    if |xs| == 0 then []
    else
      var rest := Filter(xs[1..], p);
      assert xs == [xs[0]] + xs[1..];
      if p(xs[0]) then [xs[0]] + rest else rest
  }

  /** Filtering keeps every copy of a selected element and no copy of any other. */
  lemma {:induction false} FilterMultiset<T(!new)>(xs: seq<T>, p: T -> bool)
    ensures forall x :: multiset(Filter(xs, p))[x] == if p(x) then multiset(xs)[x] else 0
    decreases |xs|
  {
    if |xs| > 0 {
      FilterMultiset(xs[1..], p);
      assert xs == [xs[0]] + xs[1..];
      if p(xs[0]) {
        assert Filter(xs, p) == [xs[0]] + Filter(xs[1..], p);
      }
    }
  }

  /** Filtering distributes over concatenation: the selection is made element by element, in order. */
  lemma {:induction false} FilterConcat<T(!new)>(a: seq<T>, b: seq<T>, p: T -> bool)
    ensures Filter(a + b, p) == Filter(a, p) + Filter(b, p)
    decreases |a|
  {
    if |a| == 0 {
      assert a + b == b;
    } else {
      var ab := a + b;
      assert ab[0] == a[0] && ab[1..] == a[1..] + b;
      FilterConcat(a[1..], b, p);
      if p(a[0]) {
        assert Filter(ab, p) == [a[0]] + Filter(a[1..] + b, p);
        assert Filter(a, p) == [a[0]] + Filter(a[1..], p);
      }
    }
  }

  /** A filter whose predicate holds of every element is the identity. */
  lemma {:induction false} FilterAll<T(!new)>(xs: seq<T>, p: T -> bool)
    requires forall x :: x in xs ==> p(x)
    ensures Filter(xs, p) == xs
    decreases |xs|
  {
    if |xs| > 0 {
      FilterAll(xs[1..], p);
    }
  }

  /** A subsequence takes each element at most as often as it occurs. */
  lemma {:induction false} SubsequenceMultiset<T>(a: seq<T>, b: seq<T>)
    requires IsSubsequence(a, b)
    ensures multiset(a) <= multiset(b)
    decreases |b|
  {
    if |a| == 0 {
    } else if a[0] == b[0] && IsSubsequence(a[1..], b[1..]) {
      SubsequenceMultiset(a[1..], b[1..]);
      assert a == [a[0]] + a[1..] && b == [b[0]] + b[1..];
    } else {
      SubsequenceMultiset(a, b[1..]);
      assert b == [b[0]] + b[1..];
    }
  }

  /** The position of the first element satisfying `p` (JavaScript's `Array.prototype.findIndex`), if any. */
  function FindFirst<T>(xs: seq<T>, p: T -> bool): (r: Option<nat>)
    ensures r.Some? ==> r.value < |xs| && p(xs[r.value]) && forall j :: 0 <= j < r.value ==> !p(xs[j])
    ensures r.None? <==> forall j :: 0 <= j < |xs| ==> !p(xs[j])
    decreases |xs|
  {
    if |xs| == 0 then None
    else if p(xs[0]) then Some(0)
    else
      match FindFirst(xs[1..], p)
      case None => None
      case Some(k) => Some(k + 1)
  }

  /** No element after position `i` has the key of `xs[i]`. */
  predicate LastWithKey<K(==), T>(xs: seq<T>, key: T -> K, i: int)
    requires 0 <= i < |xs|
  {
    forall j :: i < j < |xs| ==> key(xs[j]) != key(xs[i])
  }

  /**
   * The map built by setting `key(x) := x` for each element in order (a
   * JavaScript `Map` filled by `forEach`): its keys are exactly the keys of
   * the elements, and each key maps to the last element carrying it.
   */
  function IndexBy<K(!new), T>(xs: seq<T>, key: T -> K): (m: map<K, T>)
    ensures forall k :: k in m <==> exists i :: 0 <= i < |xs| && key(xs[i]) == k
    ensures forall i :: 0 <= i < |xs| && LastWithKey(xs, key, i) ==> key(xs[i]) in m && m[key(xs[i])] == xs[i]
    decreases |xs|
  {
    if |xs| == 0 then map[]
    else
      var prev := IndexBy(xs[..|xs| - 1], key);
      IndexInsertLast(prev, xs, key);
      prev[key(xs[|xs| - 1]) := xs[|xs| - 1]]
  }

  ghost predicate IndexesLast<K(!new), T>(m: map<K, T>, xs: seq<T>, key: T -> K) {
    && (forall k :: k in m <==> exists i :: 0 <= i < |xs| && key(xs[i]) == k)
    && (forall i :: 0 <= i < |xs| && LastWithKey(xs, key, i) ==> key(xs[i]) in m && m[key(xs[i])] == xs[i])
  }

  /** Setting the last element's key in the index of the others indexes them all. */
  lemma IndexInsertLast<K(!new), T>(prev: map<K, T>, xs: seq<T>, key: T -> K)
    requires |xs| > 0 && IndexesLast(prev, xs[..|xs| - 1], key)
    ensures IndexesLast(prev[key(xs[|xs| - 1]) := xs[|xs| - 1]], xs, key)
  {
    var n := |xs| - 1;
    var prefix, last := xs[..n], xs[n];
    var m := prev[key(last) := last];
    assert forall i :: 0 <= i < n ==> prefix[i] == xs[i];
    forall k ensures k in m <==> exists i :: 0 <= i < |xs| && key(xs[i]) == k {
      if k == key(last) {
        assert key(xs[n]) == k;
      } else if k in prev {
        var i :| 0 <= i < |prefix| && key(prefix[i]) == k;
        assert key(xs[i]) == k;
      }
    }
    forall i | 0 <= i < |xs| && LastWithKey(xs, key, i) ensures key(xs[i]) in m && m[key(xs[i])] == xs[i] {
      if i < n {
        assert prefix[i] == xs[i];
        assert LastWithKey(prefix, key, i);
      }
    }
  }

  /** The sum of `f` over the elements of `xs` (JavaScript's `reduce((s, x) => s + f(x), 0)`). */
  function SumOver<T>(xs: seq<T>, f: T -> int): int
    decreases |xs|
  {
    if |xs| == 0 then 0 else f(xs[0]) + SumOver(xs[1..], f)
  }

  lemma {:induction false} SumOverConcat<T>(a: seq<T>, b: seq<T>, f: T -> int)
    ensures SumOver(a + b, f) == SumOver(a, f) + SumOver(b, f)
    decreases |a|
  {
    if |a| == 0 {
      assert a + b == b;
    } else {
      assert (a + b)[1..] == a[1..] + b;
      SumOverConcat(a[1..], b, f);
    }
  }

  /** Extending a prefix by one element adds that element's term. */
  lemma SumOverSnoc<T>(xs: seq<T>, i: nat, f: T -> int)
    requires i < |xs|
    ensures SumOver(xs[..i + 1], f) == SumOver(xs[..i], f) + f(xs[i])
  {
    assert xs[..i + 1] == xs[..i] + [xs[i]];
    SumOverConcat(xs[..i], [xs[i]], f);
  }

  /** A sum over a sequence depends only on its multiset of elements: reordering never changes it. */
  lemma {:induction false} SumOverPermutation<T>(xs: seq<T>, ys: seq<T>, f: T -> int)
    requires multiset(xs) == multiset(ys)
    ensures SumOver(xs, f) == SumOver(ys, f)
    decreases |xs|
  {
    if |xs| == 0 {
      assert |ys| == |multiset(ys)| == 0;
    } else {
      var x := xs[0];
      assert x in multiset(ys);
      var i :| 0 <= i < |ys| && ys[i] == x;
      var rest := ys[..i] + ys[i + 1..];
      assert ys == ys[..i] + [x] + ys[i + 1..];
      SumOverConcat(ys[..i] + [x], ys[i + 1..], f);
      SumOverConcat(ys[..i], [x], f);
      SumOverConcat(ys[..i], ys[i + 1..], f);
      assert xs == [x] + xs[1..];
      calc {
        multiset(ys);
        multiset(ys[..i] + [x] + ys[i + 1..]);
        multiset(ys[..i]) + multiset{x} + multiset(ys[i + 1..]);
        multiset(rest) + multiset{x};
      }
      assert multiset(xs) == multiset(xs[1..]) + multiset{x};
      assert multiset(xs[1..]) == multiset(xs) - multiset{x};
      assert multiset(rest) == multiset(ys) - multiset{x};
      SumOverPermutation(xs[1..], rest, f);
    }
  }
}
