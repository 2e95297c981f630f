# Insertion sort and merge sort of a sorting benchmark, in Dafny

The program benchmarks two hand-written sorts against the runtime's built-in sort.
This project models the two hand-written sorts, `insertion_sort` and `merge_sort`
(`HW04-task1.py`, lines 9-35). It proves that each returns a stable sort of its input:
the output is in non-decreasing order, it is a permutation of the input, and elements
with equal keys keep their input order. It also proves that the caller's input is left
alone, and that a sequence has exactly one stable sort. So the two algorithms agree on
every input, and an already sorted input comes back unchanged.

Elements are of any type `T`, compared through an integer sort key `key: T -> int`.
`key(x) <= key(y)` is the test in the merge. Its negation, `key(x) > key(y)`, is the
shift test of the insertion sort. Plain numbers use the key `Value(x) = x`. Records
sorted by one field (`First`) show stability.

Modules:

- `Ordering` (ordering.dfy) defines what a stable sort is.
  - `IsSorted`: keys never decrease.
  - `WithKey(key, s, k)`: the subsequence of `s` whose key is `k`.
  - `Stable`: every `WithKey` subsequence is the same.
  - `IsStableSortOf`: sorted, same multiset, and stable.
  - It also holds the uniqueness lemma.
- `InsertionSort` (insertion.dfy) models `insertion_sort`.
  - The input is an `array`; the result is a fresh array filled from it, as `arr.copy()` does.
  - The copy is sorted in place.
  - One pass of the outer `for` loop (lines 12-17) is the method `InsertAt`, which holds the inner shifting `while` loop.
  - The function `Insert` says where that loop drops the element: scanning from the right, it passes only strictly greater keys.
  - `InsertionSorted` folds `Insert` over the input; it is the specification of the method.
- `MergeSort` (merge.dfy) models `merge_sort`.
  - The input is a `seq`, which `merge_sort` only slices and never writes.
  - The two-index merge loop and the two `extend` calls (lines 26-34) are the method `MergeRuns`.
  - `MergeRuns` is proved equal to the function `Merge`, which takes the smaller front each time and the left front on ties.
  - The loop invariant says that `merged` followed by the merge of what is left of both runs is the merge of the whole runs.
- `Scenarios` (scenarios.dfy) holds concrete inputs: `[5,3,1,4,2]`, `[]`, and tagged records with equal keys.

## Model

| member | source | states |
|---|---|---|
| `Ordering.SortedStableUnique` | HW04-task1.py:9-35 | two sorted sequences with the same multiset and the same order inside every key class are equal |
| `Ordering.StableSortUnique` | HW04-task1.py:9-35 | any two stable sorts of one input are the same sequence, so the insertion sort and the merge sort agree on every input |
| `Ordering.SortedInputUnchanged` | HW04-task1.py:9-35 | a stable sort of an input that is already sorted is that input, unchanged |
| `InsertionSort.Insert` | HW04-task1.py:13-17 | where the shift loop leaves the key: after the last element of the prefix whose key is not greater, with every strictly greater element after it. Its contract states that the result is one longer than the prefix and holds the key; where the key lands is stated by `InsertSplit` |
| `InsertionSort.InsertionSorted` | HW04-task1.py:11-17 | what the outer loop builds: each element in turn inserted into the sorted prefix. Its contract states that it has as many elements as the input; `InsertionSortedIsStableSort` states that it is the stable sort |
| `InsertionSort.InsertPermutation` | HW04-task1.py:12-17 | shifting and placing the key loses no element and adds only the key: the multiset grows by exactly that element |
| `InsertionSort.InsertSorted` | HW04-task1.py:14-17 | inserting into a sorted prefix leaves it sorted |
| `InsertionSort.InsertStable` | HW04-task1.py:14-17 | the strict `>` test means the inserted element never passes an element with its own key: in every key class it ends up last, as in the input |
| `InsertionSort.InsertSplit` | HW04-task1.py:13-17 | when the loop stops at `j` (front reached, or a key not greater), having passed only strictly greater keys, the element lands right after index `j` |
| `InsertionSort.InsertionSortedIsStableSort` | HW04-task1.py:11-18 | inserting the elements one by one yields a sorted permutation of the input that keeps equal keys in input order |
| `InsertionSort.InsertAt` | HW04-task1.py:12-17 | one outer pass at index `i` turns `a[..i+1]` into the insertion of the old `a[i]` into the old `a[..i]`, and leaves everything after `i` untouched |
| `InsertionSort.InsertionSort` | HW04-task1.py:9-18 | the result is a fresh array with the stable sort of the input; the caller's array is unchanged; a sorted input is returned as it was |
| `MergeSort.Merge` | HW04-task1.py:26-34 | what the merge loop and the two `extend` calls produce: the smaller front each time, the left one on ties, then both leftovers; its length is the sum of the runs' lengths |
| `MergeSort.MergePermutation` | HW04-task1.py:26-34 | the merged list holds exactly the elements of both runs |
| `MergeSort.MergeSorted` | HW04-task1.py:26-34 | merging two sorted runs gives a sorted list |
| `MergeSort.MergeStable` | HW04-task1.py:29-32 | because ties take the left element (`<=`), each key class of the merge is the left run's class followed by the right run's, when the left run is sorted |
| `MergeSort.MergeIsStableSort` | HW04-task1.py:26-34 | merging two sorted runs gives the stable sort of their concatenation |
| `MergeSort.MergeRuns` | HW04-task1.py:26-34 | the two-index loop plus the two `extend` calls build exactly the merge of the two runs |
| `MergeSort.StableSortTransfer` | HW04-task1.py:23-25 | stable sorts of `arr[:mid]` and `arr[mid:]`, stably merged, give a stable sort of `arr` |
| `MergeSort.MergeSort` | HW04-task1.py:20-35 | an input of length 0 or 1 is returned as it is; every result is a stable sort of the input, equal to what the insertion sort returns |
| `Scenarios.FiveNumbers` | HW04-task1.py:9-35 | every stable sort of `[5,3,1,4,2]`, both hand-written sorts included, is `[1,2,3,4,5]` |
| `Scenarios.EmptyInput` | HW04-task1.py:9-35 | every stable sort of `[]` is `[]` |
| `Scenarios.EqualKeysKeepOrder` | HW04-task1.py:9-35 | `[(2,'a'),(1,'b'),(2,'c'),(1,'d')]`, sorted by the first field, can only become `[(1,'b'),(1,'d'),(2,'a'),(2,'c')]` |
| `Scenarios.SortBoth` | HW04-task1.py:9-35 | calling `insertion_sort` on an array `[5,3,1,4,2]` and `merge_sort` on `[5,3,1,4,2]` gives `[1,2,3,4,5]` from both, leaves the caller's array as it was, and `merge_sort` of `[]` gives `[]` |

## Left out

- `run_timings` (HW04-task1.py:37-49): random float samples, wall-clock timing with `timeit`, float division of the totals and pandas table assembly. None of it is functional behaviour that can be stated without the clock and the random source. The code checks neither `num_runs` nor the sizes: `num_runs == 0` raises `ZeroDivisionError` at line 46 (`t_ins / num_runs`), a negative `num_runs` divides a near-zero time by a negative number, and a size `n <= 0` gives an empty sample at line 40 (`range(n)` is empty). None of this is modelled.
- The built-in `sorted()` (HW04-task1.py:44): a library sort that is only timed. The model's reference is the predicate `IsStableSortOf`. Because a stable sort is unique, any stable library sort would equal both hand-written sorts.
- `plot_results` (HW04-task1.py:51-63) and `main` (HW04-task1.py:65-92): plotting, argument parsing, CSV writing and console output.
- `MergeSort.MergeSort`: in the base case (line 22) the source returns the caller's own list object, not a copy. The model works on sequence values, so this aliasing is not visible in it.
- Python compares the elements themselves. The model compares integer keys. This loses nothing for one call: a sort only compares the finitely many elements of its input, and ranking those elements under any total preorder (strings in lexicographic order, say) gives an integer key that orders them the same way. Floating-point values and NaN, whose comparisons are not a total preorder, are not modelled.
- The merge loop (HW04-task1.py:26-34) sits inline in `merge_sort` in the source. Here it is the separate method `MergeRuns`, called once per recursive step.
- One outer pass of `insertion_sort`'s loop is its own method, `InsertAt`. The two methods together do the same array updates as the source in the same order.
- Running time and the O(n²) / O(n log n) costs are not modelled.
