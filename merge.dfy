/**
 * `merge_sort`: split at `len // 2`, sort both halves recursively, and merge them
 * with a two-index loop that takes the left front on ties.
 */
module MergeSort {
  import opened Ordering
  import InsertionSort

  /**
   * The sequence the merge loop and the two `extend` calls build from `l` and `r`:
   * repeatedly the smaller front, the left one when the keys are equal, and the
   * leftover of whichever side is not exhausted.
   */
  function Merge<T>(key: T -> int, l: seq<T>, r: seq<T>): (m: seq<T>)
    ensures |m| == |l| + |r|
    decreases |l| + |r|
  {
    if l == [] then r
    else if r == [] then l
    else if key(l[0]) <= key(r[0]) then [l[0]] + Merge(key, l[1..], r)
    else [r[0]] + Merge(key, l, r[1..])
  }

  /** Merging loses and invents nothing. */
  lemma {:induction false} MergePermutation<T>(key: T -> int, l: seq<T>, r: seq<T>)
    ensures multiset(Merge(key, l, r)) == multiset(l) + multiset(r)
    decreases |l| + |r|
  {
    if l != [] && r != [] {
      if key(l[0]) <= key(r[0]) {
        assert l == [l[0]] + l[1..];
        MergePermutation(key, l[1..], r);
      } else {
        assert r == [r[0]] + r[1..];
        MergePermutation(key, l, r[1..]);
      }
    }
  }

  /** A lower bound on the keys of both runs is a lower bound on the keys of their merge. */
  lemma {:induction false} MergeLowerBound<T>(key: T -> int, l: seq<T>, r: seq<T>, b: int)
    requires forall i :: 0 <= i < |l| ==> b <= key(l[i])
    requires forall i :: 0 <= i < |r| ==> b <= key(r[i])
    ensures forall i :: 0 <= i < |Merge(key, l, r)| ==> b <= key(Merge(key, l, r)[i])
    decreases |l| + |r|
  {
    if l != [] && r != [] {
      if key(l[0]) <= key(r[0]) {
        MergeLowerBound(key, l[1..], r, b);
      } else {
        MergeLowerBound(key, l, r[1..], b);
      }
    }
  }

  /** Merging two sorted runs gives a sorted run. */
  lemma {:induction false} MergeSorted<T>(key: T -> int, l: seq<T>, r: seq<T>)
    requires IsSorted(key, l) && IsSorted(key, r)
    ensures IsSorted(key, Merge(key, l, r))
    decreases |l| + |r|
  {
    if l != [] && r != [] {
      if key(l[0]) <= key(r[0]) {
        var t := l[1..];
        MergeSorted(key, t, r);
        MergeLowerBound(key, t, r, key(l[0]));
      } else {
        var t := r[1..];
        MergeSorted(key, l, t);
        MergeLowerBound(key, l, t, key(r[0]));
      }
    }
  }

  /**
   * Ties take the left element, so within every key class the left run's elements
   * come first, in their order, followed by the right run's.
   */
  lemma {:induction false} MergeStable<T>(key: T -> int, l: seq<T>, r: seq<T>, k: int)
    requires IsSorted(key, l)
    ensures WithKey(key, Merge(key, l, r), k) == WithKey(key, l, k) + WithKey(key, r, k)
    decreases |l| + |r|
  {
    if l != [] && r != [] {
      if key(l[0]) <= key(r[0]) {
        assert IsSorted(key, l[1..]);
        MergeStable(key, l[1..], r, k);
        PrependLeft(key, l[0], Merge(key, l[1..], r), l[1..], r, k);
        assert [l[0]] + l[1..] == l;
      } else {
        MergeStable(key, l, r[1..], k);
        TakeRightFirst(key, l, r[0], k);
        PrependRight(key, r[0], Merge(key, l, r[1..]), l, r[1..], k);
        assert [r[0]] + r[1..] == r;
      }
    }
  }

  /** Putting an element of the left run in front of a stable merge of the rest. */
  lemma PrependLeft<T>(key: T -> int, x: T, m: seq<T>, t: seq<T>, r: seq<T>, k: int)
    requires WithKey(key, m, k) == WithKey(key, t, k) + WithKey(key, r, k)
    ensures WithKey(key, [x] + m, k) == WithKey(key, [x] + t, k) + WithKey(key, r, k)
  {
    WithKeyCons(key, x, m, k);
    WithKeyCons(key, x, t, k);
  }

  /** Putting an element of the right run in front, when no element of the left run shares its class. */
  lemma {:induction false} PrependRight<T>(key: T -> int, y: T, m: seq<T>, l: seq<T>, t: seq<T>, k: int)
    requires WithKey(key, m, k) == WithKey(key, l, k) + WithKey(key, t, k)
    requires WithKey(key, [y], k) + WithKey(key, l, k) == WithKey(key, l, k) + WithKey(key, [y], k)
    ensures WithKey(key, [y] + m, k) == WithKey(key, l, k) + WithKey(key, [y] + t, k)
  {
    var wy, wl, wt := WithKey(key, [y], k), WithKey(key, l, k), WithKey(key, t, k);
    assert WithKey(key, [y] + m, k) == wy + (wl + wt) by {
      WithKeyCons(key, y, m, k);
    }
    assert WithKey(key, [y] + t, k) == wy + wt by {
      WithKeyCons(key, y, t, k);
    }
    assert wy + (wl + wt) == (wy + wl) + wt == (wl + wy) + wt == wl + (wy + wt);
  }

  /**
   * When the right front is strictly smaller than the front of the sorted left run,
   * taking it first does not reorder any key class.
   */
  lemma TakeRightFirst<T>(key: T -> int, l: seq<T>, y: T, k: int)
    requires IsSorted(key, l) && l != [] && key(y) < key(l[0])
    ensures WithKey(key, [y], k) + WithKey(key, l, k) == WithKey(key, l, k) + WithKey(key, [y], k)
  {
    if key(y) == k {
      // every element of the sorted left run has a key of at least key(l[0]) > k
      forall i | 0 <= i < |l|
        ensures key(l[i]) != k
      {
        assert key(l[0]) <= key(l[i]);
      }
      WithKeyAbsent(key, l, k);
    } else {
      assert WithKey(key, [y], k) == [];
    }
  }

  /** Merging two sorted runs is the stable sort of their concatenation. */
  lemma MergeIsStableSort<T>(key: T -> int, l: seq<T>, r: seq<T>)
    requires IsSorted(key, l) && IsSorted(key, r)
    ensures IsStableSortOf(key, l + r, Merge(key, l, r))
  {
    MergeSorted(key, l, r);
    MergePermutation(key, l, r);
    forall k
      ensures WithKey(key, Merge(key, l, r), k) == WithKey(key, l + r, k)
    {
      MergeStable(key, l, r, k);
      WithKeyConcat(key, l, r, k);
    }
  }

  /**
   * The merge loop and the two `extend` calls of `merge_sort`: `merged` grows by
   * the smaller front of `left[i..]` and `right[j..]` (the left one on ties) until
   * one side is used up, then takes both leftovers.
   */
  method MergeRuns<T>(key: T -> int, left: seq<T>, right: seq<T>) returns (merged: seq<T>)
    ensures merged == Merge(key, left, right)
  {
    merged := [];
    var i, j := 0, 0;
    while i < |left| && j < |right|
      invariant 0 <= i <= |left| && 0 <= j <= |right|
      invariant |merged| == i + j
      invariant merged + Merge(key, left[i..], right[j..]) == Merge(key, left, right)
    {
      if key(left[i]) <= key(right[j]) {
        assert left[i..][1..] == left[i + 1..];
        merged := merged + [left[i]];
        i := i + 1;
      } else {
        assert right[j..][1..] == right[j + 1..];
        merged := merged + [right[j]];
        j := j + 1;
      }
    }
    merged := merged + left[i..];
    merged := merged + right[j..];
  }

  /**
   * `merge_sort(arr)`. A list of at most one element comes back as it is;
   * otherwise the result is the stable sort of `arr`, the very sequence
   * `insertion_sort` produces. `arr` is a value and is only read.
   */
  method MergeSort<T>(key: T -> int, arr: seq<T>) returns (r: seq<T>)
    ensures |arr| <= 1 ==> r == arr
    ensures IsStableSortOf(key, arr, r)
    ensures r == InsertionSort.InsertionSorted(key, arr)
    decreases |arr|
  {
    if |arr| <= 1 {
      r := arr;
    } else {
      var mid := |arr| / 2;
      var left := MergeSort(key, arr[..mid]);
      var right := MergeSort(key, arr[mid..]);
      r := MergeRuns(key, left, right);
      MergeIsStableSort(key, left, right);
      StableSortTransfer(key, arr, mid, left, right, r);
    }
    InsertionSort.InsertionSortedIsStableSort(key, arr);
    StableSortUnique(key, arr, r, InsertionSort.InsertionSorted(key, arr));
  }

  /** A stable sort of the two sorted halves' concatenation is a stable sort of the whole. */
  lemma StableSortTransfer<T>(key: T -> int, arr: seq<T>, mid: int, left: seq<T>, right: seq<T>, r: seq<T>)
    requires 0 <= mid <= |arr|
    requires IsStableSortOf(key, arr[..mid], left) && IsStableSortOf(key, arr[mid..], right)
    requires IsStableSortOf(key, left + right, r)
    ensures IsStableSortOf(key, arr, r)
  {
    assert arr == arr[..mid] + arr[mid..];
    forall k
      ensures WithKey(key, r, k) == WithKey(key, arr, k)
    {
      WithKeyConcat(key, left, right, k);
      WithKeyConcat(key, arr[..mid], arr[mid..], k);
    }
  }
}
