/**
 * The benchmark treats its sorts as interchangeable: any of them may stand
 * in the table of algorithms under test. For integers the sorted
 * rearrangement of an input is unique, so all four return the same result.
 */
module Registry {
  import opened Ordering
  import Selection
  import Bubble
  import Merging

  /**
   * Runs selection_sort and bubble_sort on the same input and relates them to
   * both merge sorts: on a non-empty input, the only inputs the merge sorts
   * as written return on, all four agree; on every input, including the
   * empty one, they agree with the merge sorts' corrected base case.
   */
  method SortsAgree(arr: seq<int>) returns (bySelection: seq<int>, byBubble: seq<int>)
    ensures Sorted(bySelection) && multiset(bySelection) == multiset(arr)
    ensures bySelection == byBubble
    ensures bySelection == Merging.BasicMergeSortFixed(arr) == Merging.FunMergeSortFixed(arr)
    ensures |arr| >= 1 ==> bySelection == Merging.BasicMergeSort(arr) == Merging.FunMergeSort(arr)
  {
    bySelection := Selection.SelectionSort(arr);
    ghost var passes;
    byBubble, passes := Bubble.BubbleSort(arr);
    SortedPermutationUnique(bySelection, byBubble);
    SortedPermutationUnique(bySelection, Merging.BasicMergeSortFixed(arr));
    SortedPermutationUnique(bySelection, Merging.FunMergeSortFixed(arr));
  }
}
