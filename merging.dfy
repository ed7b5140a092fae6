/**
 * The two merge sorts: basic_merge_sort, whose merge advances two integer
 * cursors, and fun_merge_sort, whose merge pulls from two iterators through
 * a two-slot list of pending heads indexed by a boolean.
 */
module Merging {
  import opened Ordering
  import opened Wrappers

  // ---------------------------------------------------------------------
  // Reference definitions of the two merges
  // ---------------------------------------------------------------------

  /**
   * The merge of basic_merge_sort: take the left head only when it is
   * strictly smaller (so ties go to the right side); once a side is empty,
   * the rest of the other side follows unchanged.
   */
  function CursorMerge(left: seq<int>, right: seq<int>): (r: seq<int>)
    ensures |r| == |left| + |right|
    decreases |left| + |right|
  {
    if left == [] then right
    else if right == [] then left
    else if left[0] < right[0] then [left[0]] + CursorMerge(left[1..], right)
    else [right[0]] + CursorMerge(left, right[1..])
  }

  /**
   * The merge of fun_merge_sort, on the non-empty sides it needs to read its
   * first two heads: take the right head only when it is strictly smaller
   * (so ties go to the left side); when the side just taken from has run out,
   * the other side's pending head and its remaining items follow.
   */
  function IterMerge(left: seq<int>, right: seq<int>): (r: seq<int>)
    requires |left| > 0 && |right| > 0
    ensures |r| == |left| + |right|
    decreases |left| + |right|
  {
    if right[0] < left[0] then
      if |right| == 1 then [right[0]] + left
      else [right[0]] + IterMerge(left, right[1..])
    else
      if |left| == 1 then [left[0]] + right
      else [left[0]] + IterMerge(left[1..], right)
  }

  /** One step of IterMerge, spelled out for the loop that computes it. */
  lemma IterMergeUnfold(left: seq<int>, right: seq<int>)
    requires |left| > 0 && |right| > 0
    ensures right[0] < left[0] && |right| == 1 ==> IterMerge(left, right) == [right[0]] + [left[0]] + left[1..]
    ensures right[0] < left[0] && |right| > 1 ==> IterMerge(left, right) == [right[0]] + IterMerge(left, right[1..])
    ensures !(right[0] < left[0]) && |left| == 1 ==> IterMerge(left, right) == [left[0]] + [right[0]] + right[1..]
    ensures !(right[0] < left[0]) && |left| > 1 ==> IterMerge(left, right) == [left[0]] + IterMerge(left[1..], right)
  {
    if right[0] < left[0] && |right| == 1 {
      assert [left[0]] + left[1..] == left;
    } else if !(right[0] < left[0]) && |left| == 1 {
      assert [right[0]] + right[1..] == right;
    }
  }

  /** CursorMerge keeps every item of both sides, each as often as it occurs. */
  lemma {:induction false} CursorMergePermutes(left: seq<int>, right: seq<int>)
    ensures multiset(CursorMerge(left, right)) == multiset(left) + multiset(right)
    decreases |left| + |right|
  {
    if left != [] && right != [] {
      if left[0] < right[0] {
        CursorMergePermutes(left[1..], right);
        MultisetTail(left);
      } else {
        CursorMergePermutes(left, right[1..]);
        MultisetTail(right);
      }
    }
  }

  /** IterMerge keeps every item of both sides, each as often as it occurs. */
  lemma {:induction false} IterMergePermutes(left: seq<int>, right: seq<int>)
    requires |left| > 0 && |right| > 0
    ensures multiset(IterMerge(left, right)) == multiset(left) + multiset(right)
    decreases |left| + |right|
  {
    if right[0] < left[0] {
      MultisetTail(right);
      if |right| > 1 {
        IterMergePermutes(left, right[1..]);
      }
    } else {
      MultisetTail(left);
      if |left| > 1 {
        IterMergePermutes(left[1..], right);
      }
    }
  }

  /** Merging two sorted sequences with CursorMerge gives a sorted sequence. */
  lemma {:induction false} CursorMergeSorted(left: seq<int>, right: seq<int>)
    requires Sorted(left) && Sorted(right)
    ensures Sorted(CursorMerge(left, right))
    decreases |left| + |right|
  {
    if left != [] && right != [] {
      SortedHeadBoundsTail(left);
      SortedHeadBoundsTail(right);
      if left[0] < right[0] {
        CursorMergeSorted(left[1..], right);
        CursorMergePermutes(left[1..], right);
        SortedBoundedBelow(left[0], right);
        ConsMerged(left[0], left[1..], right, CursorMerge(left[1..], right));
      } else {
        CursorMergeSorted(left, right[1..]);
        CursorMergePermutes(left, right[1..]);
        SortedBoundedBelow(right[0], left);
        ConsMerged(right[0], left, right[1..], CursorMerge(left, right[1..]));
      }
    }
  }

  /** Merging two sorted non-empty sequences with IterMerge gives a sorted sequence. */
  lemma {:induction false} IterMergeSorted(left: seq<int>, right: seq<int>)
    requires |left| > 0 && |right| > 0
    requires Sorted(left) && Sorted(right)
    ensures Sorted(IterMerge(left, right))
    decreases |left| + |right|
  {
    SortedHeadBoundsTail(left);
    SortedHeadBoundsTail(right);
    if right[0] < left[0] {
      SortedBoundedBelow(right[0], left);
      if |right| == 1 {
        SortedCons(right[0], left);
      } else {
        IterMergeSorted(left, right[1..]);
        IterMergePermutes(left, right[1..]);
        ConsMerged(right[0], left, right[1..], IterMerge(left, right[1..]));
      }
    } else {
      SortedBoundedBelow(left[0], right);
      if |left| == 1 {
        SortedCons(left[0], right);
      } else {
        IterMergeSorted(left[1..], right);
        IterMergePermutes(left[1..], right);
        ConsMerged(left[0], left[1..], right, IterMerge(left[1..], right));
      }
    }
  }

  /**
   * The two tie-breaking rules are indistinguishable on integers: on sorted
   * non-empty sides both merges return the same sequence.
   */
  lemma MergesAgree(left: seq<int>, right: seq<int>)
    requires |left| > 0 && |right| > 0
    requires Sorted(left) && Sorted(right)
    ensures IterMerge(left, right) == CursorMerge(left, right)
  {
    IterMergeSorted(left, right);
    CursorMergeSorted(left, right);
    IterMergePermutes(left, right);
    CursorMergePermutes(left, right);
    SortedPermutationUnique(IterMerge(left, right), CursorMerge(left, right));
  }

  // ---------------------------------------------------------------------
  // The merge loops of the source
  // ---------------------------------------------------------------------

  /**
   * The state of basic_merge_sort's merge between two rounds: the cursors
   * are within their sides, and merging what they have not passed yet
   * completes `out` to the merge.
   */
  ghost predicate CursorState(left: seq<int>, right: seq<int>, l: int, r: int, out: seq<int>) {
    0 <= l <= |left| && 0 <= r <= |right| &&
    out + CursorMerge(left[l..], right[r..]) == CursorMerge(left, right)
  }

  /** A round that appends the smaller head, the right one on a tie, and moves its cursor keeps the state. */
  lemma CursorAdvance(left: seq<int>, right: seq<int>, l: int, r: int, out: seq<int>)
    requires CursorState(left, right, l, r, out) && l < |left| && r < |right|
    ensures left[l] < right[r] ==> CursorState(left, right, l + 1, r, out + [left[l]])
    ensures !(left[l] < right[r]) ==> CursorState(left, right, l, r + 1, out + [right[r]])
  {
    assert left[l..][1..] == left[l + 1..] && right[r..][1..] == right[r + 1..];
  }

  /** Once a cursor has reached the end of its side, appending both rests completes the merge. */
  lemma CursorFinish(left: seq<int>, right: seq<int>, l: int, r: int, out: seq<int>)
    requires CursorState(left, right, l, r, out) && (l == |left| || r == |right|)
    ensures out + left[l..] + right[r..] == CursorMerge(left, right)
  {
  }

  /** The inner merge of basic_merge_sort, with its cursors `l` and `r`. */
  method BasicMerge(left: seq<int>, right: seq<int>) returns (out: seq<int>)
    ensures out == CursorMerge(left, right)
  {
    var l, r := 0, 0;
    out := [];
    assert left[0..] == left && right[0..] == right;
    while l < |left| && r < |right|
      invariant CursorState(left, right, l, r, out)
      decreases |left| - l + |right| - r
    {
      CursorAdvance(left, right, l, r, out);
      if left[l] < right[r] {
        out := out + [left[l]];
        l := l + 1;
      } else {
        out := out + [right[r]];
        r := r + 1;
      }
    }
    CursorFinish(left, right, l, r, out);
    out := out + left[l..];
    out := out + right[r..];
  }

  /**
   * The state of fun_merge_sort's merge between two rounds: iterator `k` has
   * yielded `pulled[k]` items of `sides[k]`, the last of which is
   * `heads[k]`, and what is still to come completes `out` to the merge.
   */
  ghost predicate IterState(sides: seq<seq<int>>, heads: seq<int>, pulled: seq<int>, out: seq<int>) {
    |sides| == 2 && |heads| == 2 && |pulled| == 2 &&
    1 <= pulled[0] <= |sides[0]| && heads[0] == sides[0][pulled[0] - 1] &&
    1 <= pulled[1] <= |sides[1]| && heads[1] == sides[1][pulled[1] - 1] &&
    out + IterMerge(sides[0][pulled[0] - 1..], sides[1][pulled[1] - 1..]) == IterMerge(sides[0], sides[1])
  }

  /** A round that takes the smaller head and pulls the next item from the same side keeps the state. */
  lemma IterAdvance(sides: seq<seq<int>>, heads: seq<int>, pulled: seq<int>, out: seq<int>, smaller: nat)
    requires IterState(sides, heads, pulled, out)
    requires smaller == (if heads[1] < heads[0] then 1 else 0)
    requires pulled[smaller] < |sides[smaller]|
    ensures IterState(sides, heads[smaller := sides[smaller][pulled[smaller]]],
                      pulled[smaller := pulled[smaller] + 1], out + [heads[smaller]])
  {
    var pendingLeft, pendingRight := sides[0][pulled[0] - 1..], sides[1][pulled[1] - 1..];
    IterMergeUnfold(pendingLeft, pendingRight);
    if smaller == 0 {
      assert pendingLeft[1..] == sides[0][pulled[0]..];
    } else {
      assert pendingRight[1..] == sides[1][pulled[1]..];
    }
  }

  /** A round in which the side taken from has run out completes the merge. */
  lemma IterFinish(sides: seq<seq<int>>, heads: seq<int>, pulled: seq<int>, out: seq<int>, smaller: nat)
    requires IterState(sides, heads, pulled, out)
    requires smaller == (if heads[1] < heads[0] then 1 else 0)
    requires pulled[smaller] == |sides[smaller]|
    ensures out + [heads[smaller]] + [heads[1 - smaller]] + sides[1 - smaller][pulled[1 - smaller]..]
            == IterMerge(sides[0], sides[1])
  {
    var pendingLeft, pendingRight := sides[0][pulled[0] - 1..], sides[1][pulled[1] - 1..];
    IterMergeUnfold(pendingLeft, pendingRight);
    if smaller == 0 {
      assert pendingRight[1..] == sides[1][pulled[1]..];
    } else {
      assert pendingLeft[1..] == sides[0][pulled[0]..];
    }
  }

  /**
   * The inner merge of fun_merge_sort. Each iterator is represented by the
   * number of items it has yielded (`pulled`); `heads` is the two-slot list
   * of pending heads, and `smaller` is the boolean used as an index.
   */
  method FunMerge(left: seq<int>, right: seq<int>) returns (out: seq<int>)
    requires |left| > 0 && |right| > 0
    ensures out == IterMerge(left, right)
  {
    var sides := [left, right];
    var heads, pulled := [left[0], right[0]], [1, 1];
    out := [];
    assert left[0..] == left && right[0..] == right;
    while true
      invariant IterState(sides, heads, pulled, out)
      decreases |left| - pulled[0] + |right| - pulled[1]
    {
      var smaller := if heads[1] < heads[0] then 1 else 0;
      ghost var before := out;
      out := out + [heads[smaller]];
      if pulled[smaller] < |sides[smaller]| {
        IterAdvance(sides, heads, pulled, before, smaller);
        heads := heads[smaller := sides[smaller][pulled[smaller]]];
        pulled := pulled[smaller := pulled[smaller] + 1];
      } else {
        IterFinish(sides, heads, pulled, before, smaller);
        var other := 1 - smaller;
        out := out + [heads[other]];
        out := out + sides[other][pulled[other]..];
        return;
      }
    }
  }

  // ---------------------------------------------------------------------
  // The two merge sorts
  // ---------------------------------------------------------------------

  /**
   * The midpoint split of both merge sorts: with at least two items, both
   * halves are non-empty and strictly shorter, and together they are the
   * whole input.
   */
  lemma HalvesShorter(arr: seq<int>)
    requires |arr| >= 2
    ensures 1 <= |arr[..|arr| / 2]| < |arr| && 1 <= |arr[|arr| / 2..]| < |arr|
    ensures arr[..|arr| / 2] + arr[|arr| / 2..] == arr
  {
  }

  /**
   * basic_merge_sort: split at the midpoint, sort both halves, merge them.
   * The source's only base case is length 1, so it needs a non-empty input;
   * with at least two items both halves are non-empty and shorter.
   */
  function BasicMergeSort(arr: seq<int>): (r: seq<int>)
    requires |arr| >= 1
    ensures |r| == |arr|
    decreases |arr|
  {
    if |arr| == 1 then arr
    else
      var mid := |arr| / 2;
      var left, right := arr[..mid], arr[mid..];
      CursorMerge(BasicMergeSort(left), BasicMergeSort(right))
  }

  /**
   * fun_merge_sort: the same recursion around the iterator merge. The
   * sorted halves keep their non-zero lengths, as that merge requires.
   */
  function FunMergeSort(arr: seq<int>): (r: seq<int>)
    requires |arr| >= 1
    ensures |r| == |arr|
    decreases |arr|
  {
    if |arr| == 1 then arr
    else
      var mid := |arr| / 2;
      var left, right := arr[..mid], arr[mid..];
      IterMerge(FunMergeSort(left), FunMergeSort(right))
  }

  /** basic_merge_sort returns a sorted rearrangement of every non-empty input, and a one-item input as it is. */
  lemma {:induction false} BasicMergeSortSorts(arr: seq<int>)
    requires |arr| >= 1
    ensures Sorted(BasicMergeSort(arr)) && multiset(BasicMergeSort(arr)) == multiset(arr)
    ensures |arr| == 1 ==> BasicMergeSort(arr) == arr
    decreases |arr|
  {
    if |arr| > 1 {
      var mid := |arr| / 2;
      HalvesShorter(arr);
      var left, right := arr[..mid], arr[mid..];
      BasicMergeSortSorts(left);
      BasicMergeSortSorts(right);
      var sortedLeft, sortedRight := BasicMergeSort(left), BasicMergeSort(right);
      CursorMergeSorted(sortedLeft, sortedRight);
      CursorMergePermutes(sortedLeft, sortedRight);
    }
  }

  /** fun_merge_sort returns a sorted rearrangement of every non-empty input, and a one-item input as it is. */
  lemma {:induction false} FunMergeSortSorts(arr: seq<int>)
    requires |arr| >= 1
    ensures Sorted(FunMergeSort(arr)) && multiset(FunMergeSort(arr)) == multiset(arr)
    ensures |arr| == 1 ==> FunMergeSort(arr) == arr
    decreases |arr|
  {
    if |arr| > 1 {
      var mid := |arr| / 2;
      HalvesShorter(arr);
      var left, right := arr[..mid], arr[mid..];
      FunMergeSortSorts(left);
      FunMergeSortSorts(right);
      var sortedLeft, sortedRight := FunMergeSort(left), FunMergeSort(right);
      IterMergeSorted(sortedLeft, sortedRight);
      IterMergePermutes(sortedLeft, sortedRight);
    }
  }

  /** On every input the source accepts, the two merge sorts return the same sequence. */
  lemma MergeSortsAgree(arr: seq<int>)
    requires |arr| >= 1
    ensures FunMergeSort(arr) == BasicMergeSort(arr)
  {
    FunMergeSortSorts(arr);
    BasicMergeSortSorts(arr);
    SortedPermutationUnique(FunMergeSort(arr), BasicMergeSort(arr));
  }

  // ---------------------------------------------------------------------
  // The empty input, as written and as intended
  // ---------------------------------------------------------------------

  /**
   * basic_merge_sort exactly as written, allowed at most `depth` nested
   * calls: None means the recursion went deeper than that.
   */
  function BasicMergeSortWithin(arr: seq<int>, depth: nat): Option<seq<int>>
  {
    if depth == 0 then None
    else if |arr| == 1 then Some(arr)
    else
      var mid := |arr| / 2;
      var sortedLeft := BasicMergeSortWithin(arr[..mid], depth - 1);
      var sortedRight := BasicMergeSortWithin(arr[mid..], depth - 1);
      if sortedLeft.Some? && sortedRight.Some? then Some(CursorMerge(sortedLeft.value, sortedRight.value))
      else None
  }

  /**
   * fun_merge_sort exactly as written, allowed at most `depth` nested calls.
   * A call that returns was given a non-empty sequence and returns as many
   * items, which is what makes its iterator merge well defined.
   */
  function FunMergeSortWithin(arr: seq<int>, depth: nat): (r: Option<seq<int>>)
    ensures r.Some? ==> |arr| >= 1 && |r.value| == |arr|
  {
    if depth == 0 then None
    else if |arr| == 1 then Some(arr)
    else
      var mid := |arr| / 2;
      var sortedLeft := FunMergeSortWithin(arr[..mid], depth - 1);
      var sortedRight := FunMergeSortWithin(arr[mid..], depth - 1);
      if sortedLeft.Some? && sortedRight.Some? then Some(IterMerge(sortedLeft.value, sortedRight.value))
      else None
  }

  /** On the empty input basic_merge_sort never returns, however deep the recursion may go. */
  lemma {:induction false} BasicMergeSortDivergesOnEmpty(depth: nat)
    ensures BasicMergeSortWithin([], depth) == None
  {
    if depth > 0 {
      BasicMergeSortDivergesOnEmpty(depth - 1);
    }
  }

  /** On the empty input fun_merge_sort never returns, however deep the recursion may go. */
  lemma FunMergeSortDivergesOnEmpty(depth: nat)
    ensures FunMergeSortWithin([], depth) == None
  {
  }

  /** On a non-empty input, |arr| nested calls are enough for basic_merge_sort to return BasicMergeSort(arr). */
  lemma {:induction false} BasicMergeSortWithinReturns(arr: seq<int>, depth: nat)
    requires 1 <= |arr| <= depth
    ensures BasicMergeSortWithin(arr, depth) == Some(BasicMergeSort(arr))
    decreases |arr|
  {
    if |arr| > 1 {
      var mid := |arr| / 2;
      HalvesShorter(arr);
      var left, right := arr[..mid], arr[mid..];
      BasicMergeSortWithinReturns(left, depth - 1);
      BasicMergeSortWithinReturns(right, depth - 1);
      assert BasicMergeSortWithin(arr, depth) == Some(CursorMerge(BasicMergeSort(left), BasicMergeSort(right)));
    }
  }

  /** On a non-empty input, |arr| nested calls are enough for fun_merge_sort to return FunMergeSort(arr). */
  lemma {:induction false} FunMergeSortWithinReturns(arr: seq<int>, depth: nat)
    requires 1 <= |arr| <= depth
    ensures FunMergeSortWithin(arr, depth) == Some(FunMergeSort(arr))
    decreases |arr|
  {
    if |arr| > 1 {
      var mid := |arr| / 2;
      HalvesShorter(arr);
      var left, right := arr[..mid], arr[mid..];
      FunMergeSortWithinReturns(left, depth - 1);
      FunMergeSortWithinReturns(right, depth - 1);
      assert FunMergeSortWithin(arr, depth) == Some(IterMerge(FunMergeSort(left), FunMergeSort(right)));
    }
  }

  /**
   * basic_merge_sort with the evidently intended base case `len(arr) <= 1`:
   * the empty input is returned as it is. On longer inputs every recursive
   * call receives a non-empty half, so the rest agrees with BasicMergeSort.
   */
  function BasicMergeSortFixed(arr: seq<int>): (r: seq<int>)
    ensures Sorted(r) && multiset(r) == multiset(arr)
  {
    if |arr| <= 1 then arr
    else
      BasicMergeSortSorts(arr);
      BasicMergeSort(arr)
  }

  /** fun_merge_sort with the evidently intended base case `len(arr) <= 1`. */
  function FunMergeSortFixed(arr: seq<int>): (r: seq<int>)
    ensures Sorted(r) && multiset(r) == multiset(arr)
  {
    if |arr| <= 1 then arr
    else
      FunMergeSortSorts(arr);
      FunMergeSort(arr)
  }
}
