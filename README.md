# Sorting benchmark: the four sorts, modelled and proved in Dafny

The repository benchmarks hand-written sorting routines against Python's
builtin `sorted`. This project models those four routines and proves what
the benchmark relies on: each returns a sorted rearrangement of its input,
leaves that input alone, and agrees with the other three. All four live in
`minimalSortingTest.py`.

- `selection_sort` with its helper `find_min` (module `Selection`). The list
  copy `list(arr)` becomes a fresh `array<int>`. The two assignments of each
  round become in-place array writes. `find_min` is a method with a `for`
  loop that returns the first occurrence of the minimum.
- `basic_merge_sort` with its cursor merge (module `Merging`).
  - The merge is the method `BasicMerge`: a `while` loop over the cursors
    `L` and `R` that appends to a sequence.
  - It is proved equal to the recursive function `CursorMerge`, which takes
    from the right on equal heads.
  - The recursive sort itself is the function `BasicMergeSort`.
- `fun_merge_sort` with its iterator merge (module `Merging`).
  - The merge is the method `FunMerge`. Each iterator is represented by its
    side and the number of items pulled from it so far. The two-slot
    `heads` list is a sequence updated in place. `smallerIndex` is the slot
    number 0 or 1. The `StopIteration` handler is the branch taken when the
    side just read from has no items left.
  - It is proved equal to the recursive function `IterMerge`, which takes
    from the left on equal heads.
  - The recursive sort is the function `FunMergeSort`.
- `bubble_sort` (module `Bubble`). The list copy is an `array<int>`, and
  each run of the inner `for` loop is the method `Pass`.
  - `pairwise(enumerate(out))` reads one item ahead. The pair at `i`,
    `i + 1` therefore carries the item read for position `i` before the
    swap at `i - 1`, `i`. So the code compares the values each pair held
    when the pass began, while the swap exchanges what `out` holds now.
  - The model keeps this: the pass is the function `PassFrom`, and the
    method carries `item1` over from the previous pair.
  - On `[3, 1, 2]` the code makes three passes. Comparing the current
    values would take two.
  - It still sorts. The current item at a position is never smaller than
    the one the pass started with, so every swap exchanges a strictly
    inverted adjacent pair and removes exactly one inversion.
  - The outer loop ends after the first pass that swaps nothing. Such a
    pass has found every adjacent pair in order.
- `Ordering`: sortedness, and uniqueness of the sorted rearrangement of a
  sequence of integers. `Wrappers`: an `Option` type.
- `Registry`: all four sorts return the same sequence on every input on
  which they all return.

Inputs are Dafny `seq<int>` values, so no sort can change its caller's
input. Selection and bubble sort work on a fresh copy, and the merge sorts
only slice their input.

The merge sorts' only base case is `len(arr) == 1`. On the empty list,
`mid` is 0 and each call recurses on `arr[:0]` again, so the code never
returns; Python stops it with `RecursionError`, although the sorts are meant
to be interchangeable and selection_sort and bubble_sort accept the empty
list. The model follows the code:
- `BasicMergeSort` and `FunMergeSort` require a non-empty input;
- `BasicMergeSortWithin` and `FunMergeSortWithin` run the code as written
  with a bound on the recursion depth, and never return on `[]`;
- `BasicMergeSortFixed` and `FunMergeSortFixed` are the evidently intended
  versions, with base case `len(arr) <= 1`.

Textbook bubble sort swaps whichever adjacent pair is out of order now.
This code compares the pass-start values described above, and the model
follows the code.

## Model

| member | source | states |
|---|---|---|
| Selection.FindMin | minimalSortingTest.py:13-24 | on a non-empty input, returns an index in range and the item there; that item is no larger than any item, and strictly smaller than every item before the index (the first occurrence of the minimum) |
| Selection.SelectionStep | minimalSortingTest.py:27-30 | one round with the suffix minimum at `i + m`: the two assignments extend the sorted, placed prefix by one position (never exceeding any unsorted item) and keep the multiset |
| Selection.SelectionSort | minimalSortingTest.py:26-31 | for every input, including the empty one, the result is sorted and has the input's multiset |
| Merging.CursorMerge | minimalSortingTest.py:69-83 | the cursor merge's result, defined for empty sides too, has `len(left) + len(right)` items |
| Merging.IterMerge | minimalSortingTest.py:42-53 | the iterator merge, on the non-empty sides it needs for its two first `next` calls, has `len(left) + len(right)` items |
| Merging.IterMergeUnfold | minimalSortingTest.py:45-53 | one round of the iterator loop: which head is appended, and that when its side is exhausted the other head and the rest of the other side follow |
| Merging.CursorMergePermutes | minimalSortingTest.py:69-83 | the cursor merge's multiset is `multiset(left) + multiset(right)` |
| Merging.IterMergePermutes | minimalSortingTest.py:42-53 | the iterator merge's multiset is `multiset(left) + multiset(right)` |
| Merging.CursorMergeSorted | minimalSortingTest.py:72-81 | two sorted sides give a sorted cursor merge |
| Merging.IterMergeSorted | minimalSortingTest.py:45-53 | two sorted non-empty sides give a sorted iterator merge |
| Merging.MergesAgree | minimalSortingTest.py:46-78 | although the iterator merge breaks ties to the left (line 46) and the cursor merge to the right (line 73), on sorted non-empty integer sides both return the same sequence |
| Merging.CursorAdvance | minimalSortingTest.py:72-78 | one round of the cursor loop appends the smaller head (the right one on a tie) and advances that cursor, keeping the rest of the merge unchanged |
| Merging.CursorFinish | minimalSortingTest.py:80-81 | once a cursor has reached its end, appending the remains of both sides completes the merge |
| Merging.BasicMerge | minimalSortingTest.py:69-83 | the cursor loop returns exactly `CursorMerge(left, right)` for any pair of sides, empty ones included |
| Merging.IterAdvance | minimalSortingTest.py:46-49 | a round whose `next` succeeds appends the chosen head, refills that slot and keeps the rest of the merge unchanged |
| Merging.IterFinish | minimalSortingTest.py:50-53 | when the chosen side is exhausted, appending the other head and the rest of the other iterator completes the merge |
| Merging.FunMerge | minimalSortingTest.py:42-53 | on two non-empty sides, the iterator loop returns exactly `IterMerge(left, right)` |
| Merging.HalvesShorter | minimalSortingTest.py:88-89 | with two or more items, both halves of the split at `len // 2` are non-empty and strictly shorter, and together they are the input (the same split as lines 57-58) |
| Merging.BasicMergeSort | minimalSortingTest.py:85-90 | on a non-empty input, basic_merge_sort returns as many items as it was given |
| Merging.FunMergeSort | minimalSortingTest.py:54-59 | on a non-empty input, fun_merge_sort returns as many items as it was given |
| Merging.BasicMergeSortSorts | minimalSortingTest.py:85-90 | on a non-empty input the result is sorted and has the input's multiset; a one-item input comes back as it is |
| Merging.FunMergeSortSorts | minimalSortingTest.py:54-59 | on a non-empty input the result is sorted and has the input's multiset; a one-item input comes back as it is |
| Merging.MergeSortsAgree | minimalSortingTest.py:54-90 | both merge sorts return the same sequence on every non-empty input |
| Merging.FunMergeSortWithin | minimalSortingTest.py:54-59 | fun_merge_sort as written, with at most `depth` nested calls: a call that returns was given a non-empty input and returns as many items |
| Merging.BasicMergeSortDivergesOnEmpty | minimalSortingTest.py:85-90 | basic_merge_sort as written does not return on `[]`, whatever the depth allowed |
| Merging.FunMergeSortDivergesOnEmpty | minimalSortingTest.py:54-59 | fun_merge_sort as written does not return on `[]`, whatever the depth allowed |
| Merging.BasicMergeSortWithinReturns | minimalSortingTest.py:85-90 | on a non-empty input, `len(arr)` nested calls are enough for basic_merge_sort as written to return `BasicMergeSort(arr)` |
| Merging.FunMergeSortWithinReturns | minimalSortingTest.py:54-59 | on a non-empty input, `len(arr)` nested calls are enough for fun_merge_sort as written to return `FunMergeSort(arr)` |
| Merging.BasicMergeSortFixed | minimalSortingTest.py:85-86 | with base case `len(arr) <= 1`, the result is sorted and has the input's multiset for every input, the empty one included |
| Merging.FunMergeSortFixed | minimalSortingTest.py:54-55 | with base case `len(arr) <= 1`, the result is sorted and has the input's multiset for every input, the empty one included |
| Bubble.SwapAdjacent | minimalSortingTest.py:102 | the tuple assignment exchanges positions `k` and `k + 1`, keeps every other position and the multiset |
| Bubble.SwapReducesInversions | minimalSortingTest.py:101-102 | exchanging an adjacent pair that is strictly out of order removes exactly one inversion |
| Bubble.PassKeep | minimalSortingTest.py:100-101 | a pair whose pass-start items are in order is left alone, and the pass goes on |
| Bubble.PassSwap | minimalSortingTest.py:100-103 | a pair whose pass-start items are out of order is exchanged; the current item at `i` is at least the compared one, so an inversion goes, and the flag is set |
| Bubble.PassFrom | minimalSortingTest.py:100-103 | the rest of one pass of the inner loop, with `item1` carried over from the previous pair: the list after it has as many items |
| Bubble.PassFromEffect | minimalSortingTest.py:99-103 | from any state a pass reaches, the pass ends with the multiset kept, with `did_swap` set exactly when some adjacent pair of the list the pass started on is out of order, with the list unchanged when nothing was swapped, and with fewer inversions when something was |
| Bubble.WholePass | minimalSortingTest.py:99-103 | a whole pass from the first pair with `did_swap` false: the list after it has as many items |
| Bubble.WholePassEffect | minimalSortingTest.py:99-103 | a whole pass keeps the multiset, swaps exactly when some adjacent pair is out of order, changes nothing when it does not swap and removes at least one inversion when it does |
| Bubble.Pass | minimalSortingTest.py:99-103 | the in-place pass over `out` leaves `out` and `did_swap` as `WholePass` of the list it started on |
| Bubble.BubbleSort | minimalSortingTest.py:96-104 | for every input, including the empty one, the loop ends after at least one pass with a sorted rearrangement of the input; an input already sorted takes exactly one pass |
| Ordering.SortedIsAdjacentOrdered | minimalSortingTest.py:98-103 | a sorted list has every adjacent pair in order, so a pass over it swaps nothing |
| Ordering.AdjacentOrderedIsSorted | minimalSortingTest.py:98-104 | a list with every adjacent pair in order is sorted, which is what the outer loop exits on |
| Ordering.SortedPermutationUnique | minimalSortingTest.py:8 | two sorted integer sequences with the same multiset are equal, so any two of the sorts agree |
| Registry.SortsAgree | minimalSortingTest.py:8 | selection_sort and bubble_sort return the same sorted rearrangement as the corrected merge sorts on every input, and as both merge sorts as written on every non-empty input |

## Left out

- `time_algorithm`, `algorithm_trials` and `main`, with the builtin `sorted` among the algorithms, `statistics.median` and the CSV output: wall-clock timing, floating point, foreign library calls and file I/O, with no sorting logic of their own.
- `gen_starting_arr` and `gen_starting_arrs`: wrappers over the global `random` generator and `random.shuffle`, and the second is an infinite generator.
- Element type: only `int`, as the source annotates. The code would also run on other totally ordered elements. There, items that compare equal need not be identical, so the two merges' opposite tie-breaking could return different sequences, and `Ordering.SortedPermutationUnique` would not hold.
- Aliasing: the merge sorts return their input object itself on a one-item input, and fun_merge_sort's merge reads lists the caller could still hold. With sequences as values, sharing of list objects is not modelled.
- Iterators are represented by their side and the number of items pulled. `StopIteration` is represented by the branch it selects, not as an exception.
- `RecursionError`: the depth bound of `BasicMergeSortWithin` and `FunMergeSortWithin` stands in for Python's recursion limit. What happens once the limit is reached is not modelled.
- Merging.BasicMergeSortWithin: carries no contract of its own; what it computes is stated by `Merging.BasicMergeSortDivergesOnEmpty` and `Merging.BasicMergeSortWithinReturns`.
- Bubble.BubbleSort: the number of passes is a ghost out-parameter, since the source does not return it.

## Findings

| source | as written | input that shows it | evidently intended | confidence | as-written member | corrected member |
|---|---|---|---|---|---|---|
| minimalSortingTest.py:85-90 | basic_merge_sort's only base case is `len(arr) == 1`, so on the empty list it splits at `mid = 0` and calls itself on `arr[:0]` without end | `[]` | base case `len(arr) <= 1`, returning the empty list as it is, like selection_sort and bubble_sort | high, proved on the model, not executed | Merging.BasicMergeSortDivergesOnEmpty | Merging.BasicMergeSortFixed |
| minimalSortingTest.py:54-59 | fun_merge_sort's only base case is `len(arr) == 1`, so on the empty list it recurses on `arr[:0]` without end | `[]` | base case `len(arr) <= 1` | high, proved on the model, not executed | Merging.FunMergeSortDivergesOnEmpty | Merging.FunMergeSortFixed |
