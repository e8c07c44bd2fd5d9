/** Stable sorting in descending order of a numeric key, as the oracle does
    with `array.sort((a, b) => key(b) - key(a))` (a stable sort since
    ECMAScript 2019). `SortDesc` is the functional specification (an
    insertion sort that places each later element after every earlier one
    whose key is at least as large); `SortInPlace` is the in-place version
    used on arrays, proved to compute the same sequence. */
module Sorting {

  ghost predicate SortedDesc<T>(s: seq<T>, key: T -> real) {
    forall i, j :: 0 <= i < j < |s| ==> key(s[i]) >= key(s[j])
  }

  /** Inserts `x` after every element of `ys` whose key is at least `key(x)`,
      scanning from the back. */
  function InsertLast<T>(ys: seq<T>, x: T, key: T -> real): (r: seq<T>)
    ensures |r| == |ys| + 1
  {
    if ys == [] || key(ys[|ys| - 1]) >= key(x) then ys + [x]
    else InsertLast(ys[..|ys| - 1], x, key) + [ys[|ys| - 1]]
  }

  lemma {:induction false} InsertLastPermutation<T>(ys: seq<T>, x: T, key: T -> real)
    ensures multiset(InsertLast(ys, x, key)) == multiset(ys) + multiset{x}
  {
    if ys != [] && key(ys[|ys| - 1]) < key(x) {
      var init := ys[..|ys| - 1];
      InsertLastPermutation(init, x, key);
      assert ys == init + [ys[|ys| - 1]];
    }
  }

  /** The stable descending sort of `s`. */
  function SortDesc<T>(s: seq<T>, key: T -> real): (r: seq<T>)
    ensures |r| == |s|
  {
    if s == [] then [] else InsertLast(SortDesc(s[..|s| - 1], key), s[|s| - 1], key)
  }

  /** The sort returns a permutation of its input. */
  lemma {:induction false} SortDescPermutation<T>(s: seq<T>, key: T -> real)
    ensures multiset(SortDesc(s, key)) == multiset(s)
  {
    if s != [] {
      var init := s[..|s| - 1];
      SortDescPermutation(init, key);
      InsertLastPermutation(SortDesc(init, key), s[|s| - 1], key);
      assert s == init + [s[|s| - 1]];
    }
  }

  /** Where the insertion lands: after the prefix whose keys are at least
      `key(x)`, before the suffix whose keys are all smaller. */
  lemma {:induction false} InsertLastAt<T>(ys: seq<T>, x: T, key: T -> real, j: nat)
    requires j <= |ys|
    requires j == 0 || key(ys[j - 1]) >= key(x)
    requires forall k :: j <= k < |ys| ==> key(ys[k]) < key(x)
    ensures InsertLast(ys, x, key) == ys[..j] + [x] + ys[j..]
  {
    if |ys| == j {
      assert ys[..j] == ys && ys[j..] == [];
    } else {
      var init, last := ys[..|ys| - 1], ys[|ys| - 1];
      assert key(last) < key(x);
      assert InsertLast(ys, x, key) == InsertLast(init, x, key) + [last];
      assert forall k :: j <= k < |init| ==> init[k] == ys[k];
      InsertLastAt(init, x, key, j);
      calc {
        InsertLast(ys, x, key);
        init[..j] + [x] + init[j..] + [last];
        { assert init[..j] == ys[..j]; assert init[j..] + [last] == ys[j..]; }
        ys[..j] + [x] + ys[j..];
      }
    }
  }

  lemma {:induction false} InsertLastSorted<T>(ys: seq<T>, x: T, key: T -> real)
    requires SortedDesc(ys, key)
    ensures SortedDesc(InsertLast(ys, x, key), key)
  {
    if ys == [] || key(ys[|ys| - 1]) >= key(x) {
    } else {
      var init := ys[..|ys| - 1];
      var last := ys[|ys| - 1];
      InsertLastSorted(init, x, key);
      InsertLastPermutation(init, x, key);
      var r := InsertLast(init, x, key);
      forall i | 0 <= i < |r| ensures key(r[i]) >= key(last) {
        assert r[i] in multiset(r);
        if r[i] != x {
          assert r[i] in multiset(init);
          var k :| 0 <= k < |init| && init[k] == r[i];
          assert ys[k] == init[k];
        }
      }
    }
  }

  /** The result of the sort is ordered by non-increasing key. */
  lemma {:induction false} SortDescSorted<T>(s: seq<T>, key: T -> real)
    ensures SortedDesc(SortDesc(s, key), key)
  {
    if s != [] {
      SortDescSorted(s[..|s| - 1], key);
      InsertLastSorted(SortDesc(s[..|s| - 1], key), s[|s| - 1], key);
    }
  }

  /** The elements of `s` whose key equals `v`, in their order in `s`. */
  function WithKey<T>(s: seq<T>, key: T -> real, v: real): seq<T> {
    if s == [] then []
    else WithKey(s[..|s| - 1], key, v) + (if key(s[|s| - 1]) == v then [s[|s| - 1]] else [])
  }

  lemma {:induction false} InsertLastStable<T>(ys: seq<T>, x: T, key: T -> real, v: real)
    ensures WithKey(InsertLast(ys, x, key), key, v) == WithKey(ys + [x], key, v)
  {
    if ys == [] || key(ys[|ys| - 1]) >= key(x) {
    } else {
      var init := ys[..|ys| - 1];
      var last := ys[|ys| - 1];
      InsertLastStable(init, x, key, v);
      var r := InsertLast(init, x, key);
      assert (r + [last])[..|r|] == r;
      assert (init + [x])[..|init|] == init;
      assert (ys + [x])[..|ys|] == ys;
    }
  }

  /** Stability: among elements with equal keys, the sort keeps the input
      order (the elements of each key value appear in the same sequence). */
  lemma {:induction false} SortDescStable<T>(s: seq<T>, key: T -> real, v: real)
    ensures WithKey(SortDesc(s, key), key, v) == WithKey(s, key, v)
  {
    if s != [] {
      var init, last := s[..|s| - 1], s[|s| - 1];
      var sorted := SortDesc(init, key);
      SortDescStable(init, key, v);
      InsertLastStable(sorted, last, key, v);
      WithKeySnoc(sorted, last, key, v);
      WithKeySnoc(init, last, key, v);
      assert s == init + [last];
    }
  }

  lemma WithKeySnoc<T>(s: seq<T>, x: T, key: T -> real, v: real)
    ensures WithKey(s + [x], key, v) == WithKey(s, key, v) + (if key(x) == v then [x] else [])
  {
    assert (s + [x])[..|s|] == s;
  }

  /** `k` is the earliest position holding the largest key of `s`. */
  ghost predicate IsFirstMax<T>(s: seq<T>, key: T -> real, k: int) {
    && 0 <= k < |s|
    && (forall j :: 0 <= j < |s| ==> key(s[j]) <= key(s[k]))
    && (forall j :: 0 <= j < k ==> key(s[j]) < key(s[k]))
  }

  /** The earliest position of a largest key. */
  function FirstMaxIndex<T>(s: seq<T>, key: T -> real): (k: nat)
    requires |s| > 0
    ensures IsFirstMax(s, key, k)
  {
    if |s| == 1 then 0
    else
      var init := s[..|s| - 1];
      var k := FirstMaxIndex(init, key);
      if key(s[|s| - 1]) > key(init[k]) then |s| - 1 else k
  }

  lemma FirstMaxUnique<T>(s: seq<T>, key: T -> real, k1: int, k2: int)
    requires IsFirstMax(s, key, k1) && IsFirstMax(s, key, k2)
    ensures k1 == k2
  {
    assert key(s[k1]) == key(s[k2]);
  }

  lemma {:induction false} InsertLastHead<T>(ys: seq<T>, x: T, key: T -> real)
    requires |ys| > 0 && SortedDesc(ys, key)
    ensures InsertLast(ys, x, key)[0] == if key(ys[0]) >= key(x) then ys[0] else x
  {
    if key(ys[|ys| - 1]) >= key(x) {
    } else {
      var init := ys[..|ys| - 1];
      if init != [] {
        InsertLastHead(init, x, key);
      }
    }
  }

  /** The first element of the sorted sequence is the earliest largest one. */
  lemma {:induction false} SortDescHead<T>(s: seq<T>, key: T -> real)
    requires |s| > 0
    ensures SortDesc(s, key)[0] == s[FirstMaxIndex(s, key)]
  {
    var init := s[..|s| - 1];
    if init != [] {
      SortDescHead(init, key);
      SortDescSorted(init, key);
      InsertLastHead(SortDesc(init, key), s[|s| - 1], key);
    }
  }

  /** On an already sorted sequence, the earliest largest element is the first. */
  lemma SortedHead<T>(s: seq<T>, key: T -> real)
    requires |s| > 0 && SortedDesc(s, key)
    ensures SortDesc(s, key)[0] == s[0]
  {
    SortDescHead(s, key);
    assert IsFirstMax(s, key, 0);
    FirstMaxUnique(s, key, 0, FirstMaxIndex(s, key));
  }

  /** Sorts `a` in place, descending by `key`, keeping equal keys in their
      original order. */
  method SortInPlace<T>(a: array<T>, key: T -> real)
    modifies a
    ensures a[..] == SortDesc(old(a[..]), key)
  {
    ghost var input := a[..];
    var i := 0;
    while i < a.Length
      invariant 0 <= i <= a.Length
      invariant a[..i] == SortDesc(input[..i], key)
      invariant a[i..] == input[i..]
    {
      InsertAt(a, i, key);
      assert input[..i + 1][..i] == input[..i];
      i := i + 1;
    }
    assert input[..a.Length] == input;
  }

  /** One step of the insertion sort: moves `a[i]` left past the elements of
      the sorted prefix `a[..i]` whose key is smaller. */
  method InsertAt<T>(a: array<T>, i: nat, key: T -> real)
    requires i < a.Length
    modifies a
    ensures a[..i + 1] == InsertLast(old(a[..i]), old(a[i]), key)
    ensures a[i + 1..] == old(a[i + 1..])
  {
    var x := a[i];
    ghost var sorted := a[..i];
    var j := i;
    while j > 0 && key(a[j - 1]) < key(x)
      invariant 0 <= j <= i
      invariant forall k :: 0 <= k < j ==> a[k] == sorted[k]
      invariant forall k :: j < k <= i ==> a[k] == sorted[k - 1]
      invariant forall k :: i < k < a.Length ==> a[k] == old(a[k])
      invariant forall k :: j <= k < i ==> key(sorted[k]) < key(x)
    {
      a[j] := a[j - 1];
      j := j - 1;
    }
    a[j] := x;
    InsertLastAt(sorted, x, key, j);
    assert a[..i + 1] == sorted[..j] + [x] + sorted[j..];
  }
}
