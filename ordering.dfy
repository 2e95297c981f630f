/**
 * What it means for a sequence to be a stable sort of another.
 *
 * Elements are compared through an integer sort key: `key(x) <= key(y)` is the
 * comparison both hand-written sorts use (`<=` in the merge, its negation `>` in
 * the insertion sort's shift loop). Comparing whole values of a totally ordered
 * type is the special case where the key is the value itself; a key that maps
 * distinct records to the same integer is what makes stability observable.
 */
module Ordering {

  /** Every earlier element has a key no greater than every later one. */
  predicate IsSorted<T>(key: T -> int, s: seq<T>) {
    forall i, j :: 0 <= i < j < |s| ==> key(s[i]) <= key(s[j])
  }

  /** The subsequence of `s` whose elements have key `k`, in the order of `s`. */
  function WithKey<T>(key: T -> int, s: seq<T>, k: int): seq<T>
  {
    if s == [] then []
    else (if key(s[0]) == k then [s[0]] else []) + WithKey(key, s[1..], k)
  }

  /** Elements with equal keys appear in `r` in the same relative order as in `s`. */
  ghost predicate Stable<T>(key: T -> int, s: seq<T>, r: seq<T>) {
    forall k :: WithKey(key, r, k) == WithKey(key, s, k)
  }

  /** `r` is `s` rearranged into non-decreasing key order, equal keys keeping their order. */
  ghost predicate IsStableSortOf<T>(key: T -> int, s: seq<T>, r: seq<T>) {
    IsSorted(key, r) && multiset(r) == multiset(s) && Stable(key, s, r)
  }

  /** Selecting one key commutes with concatenation. */
  lemma {:induction false} WithKeyConcat<T>(key: T -> int, a: seq<T>, b: seq<T>, k: int)
    ensures WithKey(key, a + b, k) == WithKey(key, a, k) + WithKey(key, b, k)
    decreases |a|
  {
    if a == [] {
      assert a + b == b;
    } else {
      assert (a + b)[0] == a[0];
      assert (a + b)[1..] == a[1..] + b;
      WithKeyConcat(key, a[1..], b, k);
    }
  }

  /** Selecting one key from a sequence with a given first element. */
  lemma WithKeyCons<T>(key: T -> int, x: T, s: seq<T>, k: int)
    ensures WithKey(key, [x] + s, k) == WithKey(key, [x], k) + WithKey(key, s, k)
  {
    assert ([x] + s)[0] == x && ([x] + s)[1..] == s;
  }

  /** No element has key `k`, so none is selected. */
  lemma {:induction false} WithKeyAbsent<T>(key: T -> int, s: seq<T>, k: int)
    requires forall i :: 0 <= i < |s| ==> key(s[i]) != k
    ensures WithKey(key, s, k) == []
    decreases |s|
  {
    if s != [] {
      WithKeyAbsent(key, s[1..], k);
    }
  }

  /** Two sorted rearrangements of each other start with the same key. */
  lemma SortedHeadKey<T>(key: T -> int, a: seq<T>, b: seq<T>)
    requires IsSorted(key, a) && IsSorted(key, b)
    requires multiset(a) == multiset(b)
    requires a != []
    ensures b != [] && key(a[0]) == key(b[0])
  {
    assert |a| == |multiset(a)| == |multiset(b)| == |b|;
    assert a[0] in multiset(b) && b[0] in multiset(a);
    assert a[0] in b && b[0] in a;
  }

  /** If two sequences agree on every key class and start with the same key, their tails agree too. */
  lemma StableTails<T>(key: T -> int, a: seq<T>, b: seq<T>)
    requires Stable(key, a, b)
    requires a != [] && b != [] && key(a[0]) == key(b[0])
    ensures a[0] == b[0] && Stable(key, a[1..], b[1..])
  {
    var k0 := key(a[0]);
    assert WithKey(key, b, k0) == WithKey(key, a, k0);
    assert a[0] == WithKey(key, a, k0)[0] == b[0];
    forall k
      ensures WithKey(key, b[1..], k) == WithKey(key, a[1..], k)
    {
      var h := if key(a[0]) == k then [a[0]] else [];
      assert WithKey(key, a, k) == h + WithKey(key, a[1..], k);
      assert WithKey(key, b, k) == h + WithKey(key, b[1..], k);
      assert WithKey(key, b, k) == WithKey(key, a, k);
      assert WithKey(key, a[1..], k) == WithKey(key, a, k)[|h|..];
      assert WithKey(key, b[1..], k) == WithKey(key, b, k)[|h|..];
    }
  }

  /** Two sorted rearrangements of each other that agree on the order of every key class are equal. */
  lemma {:induction false} SortedStableUnique<T>(key: T -> int, a: seq<T>, b: seq<T>)
    requires IsSorted(key, a) && IsSorted(key, b)
    requires multiset(a) == multiset(b)
    requires Stable(key, a, b)
    ensures a == b
    decreases |a|
  {
    if a == [] {
      assert |b| == |multiset(b)| == |multiset(a)| == 0;
    } else {
      SortedHeadKey(key, a, b);
      StableTails(key, a, b);
      assert a == [a[0]] + a[1..] && b == [b[0]] + b[1..];
      assert multiset(a) == multiset{a[0]} + multiset(a[1..]);
      assert multiset(b) == multiset{b[0]} + multiset(b[1..]);
      assert multiset(a[1..]) == multiset(a) - multiset{a[0]};
      assert multiset(b[1..]) == multiset(b) - multiset{b[0]};
      assert IsSorted(key, a[1..]) && IsSorted(key, b[1..]);
      SortedStableUnique(key, a[1..], b[1..]);
    }
  }

  /** A sequence has exactly one stable sort: every stable sort algorithm agrees with every other. */
  lemma StableSortUnique<T>(key: T -> int, s: seq<T>, a: seq<T>, b: seq<T>)
    requires IsStableSortOf(key, s, a) && IsStableSortOf(key, s, b)
    ensures a == b
  {
    SortedStableUnique(key, a, b);
  }

  /** Sorting an already sorted sequence stably leaves it as it was. */
  lemma SortedInputUnchanged<T>(key: T -> int, s: seq<T>, r: seq<T>)
    requires IsSorted(key, s)
    requires IsStableSortOf(key, s, r)
    ensures r == s
  {
    assert IsStableSortOf(key, s, s);
    StableSortUnique(key, s, r, s);
  }
}
