/** `Array.prototype.sort` with a numeric comparator, as the feed and chat views use it.
    ECMAScript requires the sort to be stable, so the model is an insertion sort that puts
    each later element after the earlier ones with the same key. A descending sort is the
    ascending sort on the negated key. */
module Sorting {

  /** Non-decreasing by `key`. */
  predicate SortedBy<T>(xs: seq<T>, key: T -> int) {
    forall i, j :: 0 <= i < j < |xs| ==> key(xs[i]) <= key(xs[j])
  }

  /** Places `x` into `xs` after every leading element whose key is not larger. */
  function Insert<T>(x: T, xs: seq<T>, key: T -> int): seq<T> {
    if xs == [] then [x]
    else if key(x) < key(xs[0]) then [x] + xs
    else [xs[0]] + Insert(x, xs[1..], key)
  }

  /** The stable sort of `xs` by `key`: each element in turn is inserted into the sorted
      prefix before it. */
  function SortBy<T>(xs: seq<T>, key: T -> int): seq<T> {
    if xs == [] then [] else Insert(xs[|xs| - 1], SortBy(xs[..|xs| - 1], key), key)
  }

  lemma SortedTail<T>(xs: seq<T>, key: T -> int)
    requires xs != [] && SortedBy(xs, key)
    ensures SortedBy(xs[1..], key)
  {
    var t := xs[1..];
    forall i, j | 0 <= i < j < |t| ensures key(t[i]) <= key(t[j]) {
      assert t[i] == xs[i + 1] && t[j] == xs[j + 1];
    }
  }

  /** In a sorted sequence no element has a smaller key than the first. */
  lemma SortedHeadLeast<T>(xs: seq<T>, key: T -> int)
    requires xs != [] && SortedBy(xs, key)
    ensures forall y :: y in xs ==> key(xs[0]) <= key(y)
  {
    forall y | y in xs ensures key(xs[0]) <= key(y) {
      var j :| 0 <= j < |xs| && xs[j] == y;
    }
  }

  lemma SortedCons<T>(h: T, rest: seq<T>, key: T -> int)
    requires SortedBy(rest, key) && forall y :: y in rest ==> key(h) <= key(y)
    ensures SortedBy([h] + rest, key)
  {
    var r := [h] + rest;
    forall i, j | 0 <= i < j < |r| ensures key(r[i]) <= key(r[j]) {
      assert r[j] == rest[j - 1] && r[j] in rest;
      if i > 0 { assert r[i] == rest[i - 1]; }
    }
  }

  /** Inserting into a sorted sequence gives a sorted sequence with `x` added. */
  lemma {:induction false} InsertSorted<T>(x: T, xs: seq<T>, key: T -> int)
    requires SortedBy(xs, key)
    ensures SortedBy(Insert(x, xs, key), key)
    ensures multiset(Insert(x, xs, key)) == multiset(xs) + multiset{x}
  {
    if xs == [] {
    } else if key(x) < key(xs[0]) {
      SortedHeadLeast(xs, key);
      SortedCons(x, xs, key);
    } else {
      SortedTail(xs, key);
      InsertSorted(x, xs[1..], key);
      InsertBehindHead(x, xs, key, Insert(x, xs[1..], key));
    }
  }

  lemma InsertBehindHead<T>(x: T, xs: seq<T>, key: T -> int, rest: seq<T>)
    requires xs != [] && SortedBy(xs, key) && key(xs[0]) <= key(x)
    requires SortedBy(rest, key) && multiset(rest) == multiset(xs[1..]) + multiset{x}
    ensures SortedBy([xs[0]] + rest, key)
    ensures multiset([xs[0]] + rest) == multiset(xs) + multiset{x}
  {
    SortedHeadLeast(xs, key);
    forall y | y in rest ensures key(xs[0]) <= key(y) {
      assert y in multiset(rest);
      if y != x {
        assert y in multiset(xs[1..]);
        assert y in xs;
      }
    }
    SortedCons(xs[0], rest, key);
    assert xs == [xs[0]] + xs[1..];
  }

  /** The sort's result is sorted and is a permutation of its input. */
  lemma {:induction false} SortByCorrect<T>(xs: seq<T>, key: T -> int)
    ensures SortedBy(SortBy(xs, key), key)
    ensures multiset(SortBy(xs, key)) == multiset(xs)
    ensures |SortBy(xs, key)| == |xs|
  {
    if xs != [] {
      var init := xs[..|xs| - 1];
      SortByCorrect(init, key);
      InsertSorted(xs[|xs| - 1], SortBy(init, key), key);
      assert xs == init + [xs[|xs| - 1]];
      assert |SortBy(xs, key)| == |multiset(SortBy(xs, key))|;
    }
  }

  /** The elements of `xs` whose key is `k`, in their order in `xs`. */
  function WithKey<T>(xs: seq<T>, key: T -> int, k: int): seq<T> {
    if xs == [] then []
    else (if key(xs[0]) == k then [xs[0]] else []) + WithKey(xs[1..], key, k)
  }

  /** The first step of `WithKey`, for a non-empty sequence. */
  lemma WithKeyCons<T>(x: T, xs: seq<T>, key: T -> int, k: int)
    ensures WithKey([x] + xs, key, k) == (if key(x) == k then [x] else []) + WithKey(xs, key, k)
  {
    assert ([x] + xs)[0] == x && ([x] + xs)[1..] == xs;
  }

  lemma {:induction false} WithKeyAppend<T>(xs: seq<T>, ys: seq<T>, key: T -> int, k: int)
    ensures WithKey(xs + ys, key, k) == WithKey(xs, key, k) + WithKey(ys, key, k)
  {
    if xs == [] {
      assert xs + ys == ys;
    } else {
      var h := if key(xs[0]) == k then [xs[0]] else [];
      assert xs + ys == [xs[0]] + (xs[1..] + ys);
      WithKeyCons(xs[0], xs[1..] + ys, key, k);
      WithKeyAppend(xs[1..], ys, key, k);
      assert xs == [xs[0]] + xs[1..];
      WithKeyCons(xs[0], xs[1..], key, k);
      assert h + (WithKey(xs[1..], key, k) + WithKey(ys, key, k))
          == (h + WithKey(xs[1..], key, k)) + WithKey(ys, key, k);
    }
  }

  lemma {:induction false} WithKeyAbove<T>(xs: seq<T>, key: T -> int, k: int)
    requires forall y :: y in xs ==> key(y) > k
    ensures WithKey(xs, key, k) == []
  {
    if xs != [] {
      WithKeyAbove(xs[1..], key, k);
    }
  }

  lemma WithKeyConsBoth<T>(xs: seq<T>, rest: seq<T>, key: T -> int, k: int, tail: seq<T>)
    requires xs != [] && WithKey(rest, key, k) == WithKey(xs[1..], key, k) + tail
    ensures WithKey([xs[0]] + rest, key, k) == WithKey(xs, key, k) + tail
  {
    var h := if key(xs[0]) == k then [xs[0]] else [];
    WithKeyCons(xs[0], rest, key, k);
    assert xs == [xs[0]] + xs[1..];
    WithKeyCons(xs[0], xs[1..], key, k);
    assert h + (WithKey(xs[1..], key, k) + tail) == (h + WithKey(xs[1..], key, k)) + tail;
  }

  /** Inserting `x` into a sorted sequence keeps the earlier elements with x's key before it. */
  lemma {:induction false} InsertStable<T>(x: T, xs: seq<T>, key: T -> int, k: int)
    requires SortedBy(xs, key)
    ensures WithKey(Insert(x, xs, key), key, k)
         == WithKey(xs, key, k) + (if key(x) == k then [x] else [])
  {
    var tail := if key(x) == k then [x] else [];
    if xs == [] {
      assert Insert(x, xs, key) == [x] + [];
      WithKeyCons(x, [], key, k);
    } else if key(x) < key(xs[0]) {
      WithKeyCons(x, xs, key, k);
      if key(x) == k {
        SortedHeadLeast(xs, key);
        WithKeyAbove(xs, key, k);
      }
    } else {
      SortedTail(xs, key);
      InsertStable(x, xs[1..], key, k);
      WithKeyConsBoth(xs, Insert(x, xs[1..], key), key, k, tail);
    }
  }

  /** Stability: for every key, the elements with that key keep their relative order. */
  lemma {:induction false} SortByStable<T>(xs: seq<T>, key: T -> int, k: int)
    ensures WithKey(SortBy(xs, key), key, k) == WithKey(xs, key, k)
  {
    if xs != [] {
      var init, last := xs[..|xs| - 1], xs[|xs| - 1];
      SortByCorrect(init, key);
      SortByStable(init, key, k);
      InsertStable(last, SortBy(init, key), key, k);
      assert xs == init + [last];
      AppendLast(init, last, key, k);
    }
  }

  lemma AppendLast<T>(init: seq<T>, last: T, key: T -> int, k: int)
    ensures WithKey(init + [last], key, k) == WithKey(init, key, k) + (if key(last) == k then [last] else [])
  {
    WithKeyAppend(init, [last], key, k);
    WithKeyCons(last, [], key, k);
    assert [last] + [] == [last];
  }
}
