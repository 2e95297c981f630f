/**
 * Concrete inputs. Because a sequence has exactly one stable sort, what any
 * stable sort returns on them, `insertion_sort` and `merge_sort` included, is fixed.
 */
module Scenarios {
  import opened Ordering
  import InsertionSort
  import MergeSort

  /** Plain numbers are compared by their own value. */
  function Value(x: int): int { x }

  /** A record sorted by its first component only; the second tells equal keys apart. */
  function First(p: (int, char)): int { p.0 }

  /** `[5, 3, 1, 4, 2]` sorts to `[1, 2, 3, 4, 5]`. */
  lemma FiveNumbers(r: seq<int>)
    requires IsStableSortOf(Value, [5, 3, 1, 4, 2], r)
    ensures r == [1, 2, 3, 4, 5]
  {
    FiveNumbersSorted();
    StableSortUnique(Value, [5, 3, 1, 4, 2], r, [1, 2, 3, 4, 5]);
  }

  /** `[1, 2, 3, 4, 5]` is a stable sort of `[5, 3, 1, 4, 2]`. */
  lemma FiveNumbersSorted()
    ensures IsStableSortOf(Value, [5, 3, 1, 4, 2], [1, 2, 3, 4, 5])
  {
    FiveNumbersPermutation();
    FiveNumbersStable();
    assert IsSorted(Value, [1, 2, 3, 4, 5]);
  }

  /** Same elements, same multiplicities. */
  lemma FiveNumbersPermutation()
    ensures multiset([1, 2, 3, 4, 5]) == multiset([5, 3, 1, 4, 2])
  {
  }

  /** Every key class is a single number, so the order within each is trivially kept. */
  lemma FiveNumbersStable()
    ensures Stable(Value, [5, 3, 1, 4, 2], [1, 2, 3, 4, 5])
  {
    forall k
      ensures WithKey(Value, [1, 2, 3, 4, 5], k) == WithKey(Value, [5, 3, 1, 4, 2], k)
    {
      FiveNumbersClass(k);
    }
  }

  /** Each key class of `[5, 3, 1, 4, 2]` and of `[1, 2, 3, 4, 5]`. */
  lemma FiveNumbersClass(k: int)
    ensures WithKey(Value, [1, 2, 3, 4, 5], k) == WithKey(Value, [5, 3, 1, 4, 2], k)
  {
    if k == 1 {
      assert WithKey(Value, [1, 2, 3, 4, 5], 1) == [1] == WithKey(Value, [5, 3, 1, 4, 2], 1);
    } else if k == 2 {
      assert WithKey(Value, [1, 2, 3, 4, 5], 2) == [2] == WithKey(Value, [5, 3, 1, 4, 2], 2);
    } else if k == 3 {
      assert WithKey(Value, [1, 2, 3, 4, 5], 3) == [3] == WithKey(Value, [5, 3, 1, 4, 2], 3);
    } else if k == 4 {
      assert WithKey(Value, [1, 2, 3, 4, 5], 4) == [4] == WithKey(Value, [5, 3, 1, 4, 2], 4);
    } else if k == 5 {
      assert WithKey(Value, [1, 2, 3, 4, 5], 5) == [5] == WithKey(Value, [5, 3, 1, 4, 2], 5);
    } else {
      WithKeyAbsent(Value, [1, 2, 3, 4, 5], k);
      WithKeyAbsent(Value, [5, 3, 1, 4, 2], k);
    }
  }

  /** The empty list sorts to the empty list. */
  lemma EmptyInput(r: seq<int>)
    requires IsStableSortOf(Value, [], r)
    ensures r == []
  {
    assert |r| == |multiset(r)| == 0;
  }

  /**
   * Records with equal keys keep their input order: `(2,'a')` stays before `(2,'c')`
   * and `(1,'b')` before `(1,'d')`.
   */
  lemma EqualKeysKeepOrder(r: seq<(int, char)>)
    requires IsStableSortOf(First, [(2, 'a'), (1, 'b'), (2, 'c'), (1, 'd')], r)
    ensures r == [(1, 'b'), (1, 'd'), (2, 'a'), (2, 'c')]
  {
    TaggedRecordsSorted();
    StableSortUnique(First, [(2, 'a'), (1, 'b'), (2, 'c'), (1, 'd')], r, [(1, 'b'), (1, 'd'), (2, 'a'), (2, 'c')]);
  }

  /** The tagged records sorted by key, equal keys in input order, are a stable sort of them. */
  lemma TaggedRecordsSorted()
    ensures IsStableSortOf(First, [(2, 'a'), (1, 'b'), (2, 'c'), (1, 'd')], [(1, 'b'), (1, 'd'), (2, 'a'), (2, 'c')])
  {
    TaggedRecordsPermutation();
    TaggedRecordsStable();
    assert IsSorted(First, [(1, 'b'), (1, 'd'), (2, 'a'), (2, 'c')]);
  }

  /** Same records, same multiplicities. */
  lemma TaggedRecordsPermutation()
    ensures multiset([(1, 'b'), (1, 'd'), (2, 'a'), (2, 'c')]) == multiset([(2, 'a'), (1, 'b'), (2, 'c'), (1, 'd')])
  {
  }

  /** Both key classes keep their input order. */
  lemma TaggedRecordsStable()
    ensures Stable(First, [(2, 'a'), (1, 'b'), (2, 'c'), (1, 'd')], [(1, 'b'), (1, 'd'), (2, 'a'), (2, 'c')])
  {
    forall k
      ensures WithKey(First, [(1, 'b'), (1, 'd'), (2, 'a'), (2, 'c')], k)
           == WithKey(First, [(2, 'a'), (1, 'b'), (2, 'c'), (1, 'd')], k)
    {
      TaggedRecordsClass(k);
    }
  }

  /** Each key class of the tagged records, before and after sorting. */
  lemma TaggedRecordsClass(k: int)
    ensures WithKey(First, [(1, 'b'), (1, 'd'), (2, 'a'), (2, 'c')], k)
         == WithKey(First, [(2, 'a'), (1, 'b'), (2, 'c'), (1, 'd')], k)
  {
    if k == 1 {
      assert WithKey(First, [(1, 'b'), (1, 'd'), (2, 'a'), (2, 'c')], 1) == [(1, 'b'), (1, 'd')]
          == WithKey(First, [(2, 'a'), (1, 'b'), (2, 'c'), (1, 'd')], 1);
    } else if k == 2 {
      assert WithKey(First, [(1, 'b'), (1, 'd'), (2, 'a'), (2, 'c')], 2) == [(2, 'a'), (2, 'c')]
          == WithKey(First, [(2, 'a'), (1, 'b'), (2, 'c'), (1, 'd')], 2);
    } else {
      WithKeyAbsent(First, [(1, 'b'), (1, 'd'), (2, 'a'), (2, 'c')], k);
      WithKeyAbsent(First, [(2, 'a'), (1, 'b'), (2, 'c'), (1, 'd')], k);
    }
  }

  /**
   * Both hand-written sorts on `[5, 3, 1, 4, 2]`, and `merge_sort` on `[]`:
   * each returns the sorted list, and the caller's array is still as it was.
   */
  method SortBoth() returns (ins: seq<int>, mer: seq<int>, empty: seq<int>)
    ensures ins == [1, 2, 3, 4, 5] && mer == [1, 2, 3, 4, 5]
    ensures empty == []
  {
    var arr := new int[5];
    arr[0], arr[1], arr[2], arr[3], arr[4] := 5, 3, 1, 4, 2;
    assert arr[..] == [5, 3, 1, 4, 2];
    var a := InsertionSort.InsertionSort(Value, arr);
    assert arr[..] == [5, 3, 1, 4, 2];
    ins := a[..];
    FiveNumbers(ins);
    mer := MergeSort.MergeSort(Value, [5, 3, 1, 4, 2]);
    FiveNumbers(mer);
    empty := MergeSort.MergeSort(Value, []);
  }
}
