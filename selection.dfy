/**
 * selection_sort: copy the input, then for each position take the minimum
 * of the unsorted suffix and swap it into that position.
 */
module Selection {
  import opened Ordering

  /**
   * find_min: scans the sequence once, replacing the candidate only on a
   * strictly smaller item, so the index returned is the first occurrence of
   * the minimum. The source reads arr[0] first, hence the non-empty input.
   */
  method FindMin(arr: seq<int>) returns (minIndex: nat, minItem: int)
    requires |arr| > 0
    ensures minIndex < |arr| && arr[minIndex] == minItem
    ensures forall j :: 0 <= j < |arr| ==> minItem <= arr[j]
    ensures forall j :: 0 <= j < minIndex ==> minItem < arr[j]
  {
    minItem := arr[0];
    minIndex := 0;
    for i := 0 to |arr|
      invariant minIndex <= i && minIndex < |arr| && arr[minIndex] == minItem
      invariant forall j :: 0 <= j < i ==> minItem <= arr[j]
      invariant forall j :: 0 <= j < minIndex ==> minItem < arr[j]
    {
      var item := arr[i];
      if item < minItem {
        minItem := item;
        minIndex := i;
      }
    }
  }

  /**
   * What selection_sort knows after placing the first `i` positions of `s`:
   * they are sorted and none of them exceeds an element still unsorted.
   */
  ghost predicate PlacedPrefix(s: seq<int>, i: nat) {
    i <= |s| &&
    Sorted(s[..i]) &&
    forall p, q :: 0 <= p < i <= q < |s| ==> s[p] <= s[q]
  }

  /**
   * One round of the selection loop: swapping the minimum of the suffix at
   * `i` into position `i` places one more position and keeps the multiset.
   */
  lemma SelectionStep(s: seq<int>, i: nat, m: nat)
    requires PlacedPrefix(s, i) && m < |s[i..]|
    requires forall q :: 0 <= q < |s[i..]| ==> s[i..][m] <= s[i..][q]
    ensures PlacedPrefix(s[i + m := s[i]][i := s[i + m]], i + 1)
    ensures multiset(s[i + m := s[i]][i := s[i + m]]) == multiset(s)
  {
    var t := s[i + m := s[i]][i := s[i + m]];
    assert forall q :: i <= q < |s| ==> s[i + m] <= s[q] by {
      forall q | i <= q < |s| ensures s[i + m] <= s[q] {
        assert s[q] == s[i..][q - i];
      }
    }
    assert t[..i] == s[..i];
    assert t[..i + 1] == s[..i] + [s[i + m]];
    forall q | i < q < |t| ensures t[i] <= t[q] {
      assert t[q] == s[q] || t[q] == s[i];
    }
    forall p, q | 0 <= p < i + 1 <= q < |t| ensures t[p] <= t[q] {
      assert t[q] == s[q] || t[q] == s[i];
    }
  }

  /** selection_sort: returns a sorted rearrangement of `arr`, which is a value and so cannot be changed. */
  method SelectionSort(arr: seq<int>) returns (r: seq<int>)
    ensures Sorted(r) && multiset(r) == multiset(arr)
  {
    var out := new int[|arr|](k requires 0 <= k < |arr| => arr[k]);
    assert out[..] == arr;
    for i := 0 to out.Length
      invariant multiset(out[..]) == multiset(arr)
      invariant PlacedPrefix(out[..], i)
    {
      ghost var before := out[..];
      var minIndex, minItem := FindMin(out[i..]);
      assert out[i..] == before[i..];
      SelectionStep(before, i, minIndex);
      out[i + minIndex] := out[i];
      out[i] := minItem;
      assert out[..] == before[i + minIndex := before[i]][i := before[i + minIndex]];
    }
    assert out[..out.Length] == out[..];
    r := out[..];
  }
}
