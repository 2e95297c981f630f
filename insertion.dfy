/**
 * `insertion_sort`: copy the input list, then grow a sorted prefix of the copy in
 * place, shifting each new element left past the strictly greater elements before it.
 */
module InsertionSort {
  import opened Ordering

  /**
   * Where the shift loop puts `x` after the prefix `s`: scanning from the right,
   * `x` passes every element whose key is strictly greater and stops behind the
   * first one whose key is not.
   */
  function Insert<T>(key: T -> int, s: seq<T>, x: T): (r: seq<T>)
    ensures |r| == |s| + 1
    ensures x in r
    decreases |s|
  {
    if s == [] || key(s[|s| - 1]) <= key(x) then s + [x]
    else Insert(key, s[..|s| - 1], x) + [s[|s| - 1]]
  }

  /** What the outer loop leaves in the copy: each element inserted in turn into the sorted prefix. */
  function InsertionSorted<T>(key: T -> int, s: seq<T>): (r: seq<T>)
    ensures |r| == |s|
    decreases |s|
  {
    if s == [] then [] else Insert(key, InsertionSorted(key, s[..|s| - 1]), s[|s| - 1])
  }

  /** The shift loop adds `x` and loses nothing. */
  lemma {:induction false} InsertPermutation<T>(key: T -> int, s: seq<T>, x: T)
    ensures multiset(Insert(key, s, x)) == multiset(s) + multiset{x}
    decreases |s|
  {
    if s != [] && key(s[|s| - 1]) > key(x) {
      var init, last := s[..|s| - 1], s[|s| - 1];
      assert s == init + [last];
      InsertPermutation(key, init, x);
    }
  }

  /** Inserting into a sorted prefix keeps it sorted. */
  lemma {:induction false} InsertSorted<T>(key: T -> int, s: seq<T>, x: T)
    requires IsSorted(key, s)
    ensures IsSorted(key, Insert(key, s, x))
    decreases |s|
  {
    if s != [] && key(s[|s| - 1]) > key(x) {
      var init, last := s[..|s| - 1], s[|s| - 1];
      var t := Insert(key, init, x);
      assert IsSorted(key, init);
      InsertSorted(key, init, x);
      InsertPermutation(key, init, x);
      forall y | y in t
        ensures key(y) <= key(last)
      {
        assert y in multiset(init) + multiset{x};
        if y != x {
          assert y in init;
        }
      }
      assert forall i :: 0 <= i < |t| ==> t[i] in t;
      assert Insert(key, s, x) == t + [last];
    }
  }

  /**
   * The shift condition is strict, so `x` never passes an element with its own key:
   * within every key class, `x` ends up last.
   */
  lemma {:induction false} InsertStable<T>(key: T -> int, s: seq<T>, x: T, k: int)
    ensures WithKey(key, Insert(key, s, x), k) == WithKey(key, s + [x], k)
    decreases |s|
  {
    if s == [] || key(s[|s| - 1]) <= key(x) {
    } else {
      var init, last := s[..|s| - 1], s[|s| - 1];
      InsertStable(key, init, x, k);
      calc {
        WithKey(key, Insert(key, s, x), k);
        WithKey(key, Insert(key, init, x) + [last], k);
        { WithKeyConcat(key, Insert(key, init, x), [last], k); }
        WithKey(key, init + [x], k) + WithKey(key, [last], k);
        { WithKeyConcat(key, init, [x], k); }
        WithKey(key, init, k) + WithKey(key, [x], k) + WithKey(key, [last], k);
        // `x` and `last` have different keys, so at most one of them has key `k`
        WithKey(key, init, k) + WithKey(key, [last], k) + WithKey(key, [x], k);
        { WithKeyConcat(key, init, [last], k); assert init + [last] == s; }
        WithKey(key, s, k) + WithKey(key, [x], k);
        { WithKeyConcat(key, s, [x], k); }
        WithKey(key, s + [x], k);
      }
    }
  }

  /** The functional model of `insertion_sort` is a stable sort. */
  lemma {:induction false} InsertionSortedIsStableSort<T>(key: T -> int, s: seq<T>)
    ensures IsStableSortOf(key, s, InsertionSorted(key, s))
    decreases |s|
  {
    if s != [] {
      var init, last := s[..|s| - 1], s[|s| - 1];
      var p := InsertionSorted(key, init);
      assert s == init + [last];
      InsertionSortedIsStableSort(key, init);
      InsertSorted(key, p, last);
      InsertPermutation(key, p, last);
      forall k
        ensures WithKey(key, InsertionSorted(key, s), k) == WithKey(key, s, k)
      {
        InsertStable(key, p, last, k);
        WithKeyConcat(key, p, [last], k);
        WithKeyConcat(key, init, [last], k);
      }
    }
  }

  /**
   * Where the shift loop stops: when `x` has passed exactly the elements after
   * index `j`, all with strictly greater keys, and `j` is the front or holds a key
   * that is not greater, `x` goes right behind index `j`.
   */
  lemma {:induction false} InsertSplit<T>(key: T -> int, prefix: seq<T>, x: T, j: int)
    requires -1 <= j < |prefix|
    requires j == -1 || key(prefix[j]) <= key(x)
    requires forall k :: j < k < |prefix| ==> key(prefix[k]) > key(x)
    ensures Insert(key, prefix, x) == prefix[..j + 1] + [x] + prefix[j + 1..]
    decreases |prefix|
  {
    if j + 1 == |prefix| {
      assert prefix[..j + 1] == prefix && prefix[j + 1..] == [];
    } else {
      var init, last := prefix[..|prefix| - 1], prefix[|prefix| - 1];
      InsertSplit(key, init, x, j);
      assert init[..j + 1] == prefix[..j + 1];
      assert init[j + 1..] + [last] == prefix[j + 1..];
    }
  }

  /** The outer loop's step: sorting one more element of the input is one more insertion. */
  lemma OuterStep<T>(key: T -> int, s: seq<T>, i: nat)
    requires i < |s|
    ensures InsertionSorted(key, s[..i + 1]) == Insert(key, InsertionSorted(key, s[..i]), s[i])
  {
    assert s[..i + 1][..i] == s[..i];
  }

  /**
   * One pass of the outer loop of `insertion_sort` at index `i`: take `a[i]` out,
   * shift the strictly greater elements of `a[..i]` one place right, and drop it
   * into the gap. Nothing after index `i` is touched.
   */
  method InsertAt<T>(key: T -> int, a: array<T>, i: int)
    requires 0 < i < a.Length
    modifies a
    ensures a[..i + 1] == Insert(key, old(a[..i]), old(a[i]))
    ensures a[i + 1..] == old(a[i + 1..])
  {
    var x := a[i];
    ghost var prefix := a[..i];
    var j := i - 1;
    while j >= 0 && key(a[j]) > key(x)
      invariant -1 <= j <= i - 1
      invariant forall k :: 0 <= k <= j ==> a[k] == prefix[k]
      invariant forall k :: j + 2 <= k <= i ==> a[k] == prefix[k - 1]
      invariant forall k :: i < k < a.Length ==> a[k] == old(a[k])
      invariant forall k :: j < k < i ==> key(prefix[k]) > key(x)
    {
      a[j + 1] := a[j];
      j := j - 1;
    }
    InsertSplit(key, prefix, x, j);
    a[j + 1] := x;
    ghost var inserted := prefix[..j + 1] + [x] + prefix[j + 1..];
    assert forall k :: 0 <= k <= i ==> a[k] == inserted[k];
    assert a[..i + 1] == inserted;
  }

  /**
   * `insertion_sort(arr)`: the caller's array is only read; the result is a new
   * array holding the stable sort of its contents.
   */
  method InsertionSort<T>(key: T -> int, arr: array<T>) returns (a: array<T>)
    ensures fresh(a)
    ensures arr[..] == old(arr[..])
    ensures a[..] == InsertionSorted(key, arr[..])
    ensures IsStableSortOf(key, arr[..], a[..])
    ensures IsSorted(key, arr[..]) ==> a[..] == arr[..]
  {
    a := new T[arr.Length](k requires 0 <= k < arr.Length reads arr => arr[k]);
    ghost var input := arr[..];
    assert a[..] == input;
    var i := 1;
    while i < a.Length
      invariant a.Length == |input|
      invariant a.Length == 0 || 1 <= i <= a.Length
      invariant a.Length > 0 ==> a[..i] == InsertionSorted(key, input[..i]) && a[i..] == input[i..]
      invariant a.Length == 0 ==> a[..] == input
    {
      OuterStep(key, input, i);
      assert a[i] == input[i] && a[i + 1..] == input[i + 1..];
      InsertAt(key, a, i);
      i := i + 1;
    }
    if a.Length > 0 {
      assert a[..] == a[..a.Length] && input == input[..a.Length];
    }
    InsertionSortedIsStableSort(key, input);
    if IsSorted(key, input) {
      SortedInputUnchanged(key, input, a[..]);
    }
  }
}
