/** What it means to be the stable sort of a sequence by an integer key. */
module StableSort {

  function KeyOf<T>(key: T -> int, x: T): int {
    key(x)
  }

  /** The elements with one key, in order. */
  ghost function OfKey<T>(xs: seq<T>, key: T -> int, k: int): seq<T> {
    if xs == [] then []
    else OfKey(xs[..|xs| - 1], key, k) + (if KeyOf(key, xs[|xs| - 1]) == k then [xs[|xs| - 1]] else [])
  }

  ghost predicate Sorted<T>(xs: seq<T>, key: T -> int) {
    forall i, j :: 0 <= i < j < |xs| ==> KeyOf(key, xs[i]) <= KeyOf(key, xs[j])
  }

  /** Sorted, and for every key the elements that have it are those of `ms`, in their order there. */
  ghost predicate IsStableSort<T>(xs: seq<T>, ms: seq<T>, key: T -> int) {
    Sorted(xs, key) && forall k :: OfKey(xs, key, k) == OfKey(ms, key, k)
  }

  lemma OfKeySnoc<T>(xs: seq<T>, x: T, key: T -> int, k: int)
    ensures OfKey(xs + [x], key, k) == OfKey(xs, key, k) + (if KeyOf(key, x) == k then [x] else [])
  {
    assert (xs + [x])[..|xs|] == xs;
  }

  lemma {:induction false} OfKeyConcat<T>(xs: seq<T>, ys: seq<T>, key: T -> int, k: int)
    ensures OfKey(xs + ys, key, k) == OfKey(xs, key, k) + OfKey(ys, key, k)
    decreases |ys|
  {
    hide KeyOf, OfKey;
    if ys == [] {
      assert xs + ys == xs;
      OfKeyNothing(key, k);
    } else {
      var last, init := ys[|ys| - 1], ys[..|ys| - 1];
      OfKeyConcat(xs, init, key, k);
      OfKeySnoc(xs + init, last, key, k);
      OfKeySnoc(init, last, key, k);
      assert xs + ys == xs + init + [last] && ys == init + [last];
    }
  }

  lemma OfKeyNothing<T>(key: T -> int, k: int)
    ensures OfKey([], key, k) == []
  {
  }

  lemma {:induction false} OfKeyMembers<T>(xs: seq<T>, key: T -> int, k: int, i: nat)
    requires i < |OfKey(xs, key, k)|
    ensures KeyOf(key, OfKey(xs, key, k)[i]) == k && OfKey(xs, key, k)[i] in xs
  {
    if i < |OfKey(xs[..|xs| - 1], key, k)| {
      OfKeyMembers(xs[..|xs| - 1], key, k, i);
    }
  }

  /** Filtering what has one key only. */
  lemma {:induction false} OfKeyAgain<T>(xs: seq<T>, key: T -> int, k: int, l: int)
    requires forall i :: 0 <= i < |xs| ==> KeyOf(key, xs[i]) == k
    ensures OfKey(xs, key, l) == if k == l then xs else []
  {
    if xs != [] {
      OfKeyAgain(xs[..|xs| - 1], key, k, l);
      assert xs == xs[..|xs| - 1] + [xs[|xs| - 1]];
    }
  }

  lemma {:induction false} OfKeyFinds<T>(xs: seq<T>, key: T -> int, i: nat)
    requires i < |xs|
    ensures OfKey(xs, key, KeyOf(key, xs[i])) != []
  {
    if i < |xs| - 1 {
      OfKeyFinds(xs[..|xs| - 1], key, i);
    }
  }

  lemma LastIsGreatest<T>(xs: seq<T>, ys: seq<T>, key: T -> int)
    requires xs != [] && Sorted(ys, key) && forall k :: OfKey(xs, key, k) == OfKey(ys, key, k)
    ensures ys != [] && KeyOf(key, xs[|xs| - 1]) <= KeyOf(key, ys[|ys| - 1])
  {
    var k := KeyOf(key, xs[|xs| - 1]);
    OfKeyFinds(xs, key, |xs| - 1);
    OfKeyMembers(ys, key, k, 0);
  }

  /** There is only one stable sort. */
  lemma {:induction false} StableSortIsUnique<T>(xs: seq<T>, ys: seq<T>, ms: seq<T>, key: T -> int)
    requires IsStableSort(xs, ms, key) && IsStableSort(ys, ms, key)
    ensures xs == ys
  {
    SortedDetermined(xs, ys, key);
  }

  lemma {:induction false} SortedDetermined<T>(xs: seq<T>, ys: seq<T>, key: T -> int)
    requires Sorted(xs, key) && Sorted(ys, key) && forall k :: OfKey(xs, key, k) == OfKey(ys, key, k)
    ensures xs == ys
    decreases |xs|
  {
    hide KeyOf;
    if xs == [] {
      if ys != [] {
        LastIsGreatest(ys, xs, key);
      }
    } else {
      LastIsGreatest(xs, ys, key);
      LastIsGreatest(ys, xs, key);
      var x, y := xs[|xs| - 1], ys[|ys| - 1];
      var xi, yi := xs[..|xs| - 1], ys[..|ys| - 1];
      assert xs == xi + [x] && ys == yi + [y];
      forall k ensures OfKey(xi, key, k) == OfKey(yi, key, k) {
        OfKeySnoc(xi, x, key, k);
        OfKeySnoc(yi, y, key, k);
        assert OfKey(xs, key, k) == OfKey(ys, key, k);
        if KeyOf(key, x) == k {
          DropLast(OfKey(xi, key, k), x, OfKey(yi, key, k), y);
        } else {
          assert OfKey(xi, key, k) + [] == OfKey(xi, key, k) && OfKey(yi, key, k) + [] == OfKey(yi, key, k);
        }
      }
      var k := KeyOf(key, x);
      OfKeySnoc(xi, x, key, k);
      OfKeySnoc(yi, y, key, k);
      assert x == OfKey(xs, key, k)[|OfKey(xs, key, k)| - 1];
      SortedDetermined(xi, yi, key);
    }
  }

  lemma DropLast<T>(a: seq<T>, x: T, b: seq<T>, y: T)
    requires a + [x] == b + [y]
    ensures a == b && x == y
  {
    assert a == (a + [x])[..|a|] && b == (b + [y])[..|b|];
    assert x == (a + [x])[|a|] && y == (b + [y])[|b|];
  }

  lemma {:induction false} OfKeyCount<T>(xs: seq<T>, key: T -> int, x: T)
    ensures multiset(xs)[x] == multiset(OfKey(xs, key, KeyOf(key, x)))[x]
  {
    if xs != [] {
      var last, init := xs[|xs| - 1], xs[..|xs| - 1];
      OfKeyCount(init, key, x);
      assert xs == init + [last];
    }
  }

  /** A stable sort is a permutation. */
  lemma StableSortPermutes<T>(xs: seq<T>, ms: seq<T>, key: T -> int)
    requires IsStableSort(xs, ms, key)
    ensures multiset(xs) == multiset(ms)
  {
    forall x ensures multiset(xs)[x] == multiset(ms)[x] {
      OfKeyCount(xs, key, x);
      OfKeyCount(ms, key, x);
    }
  }
}
