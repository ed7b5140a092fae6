/**
 * bubble_sort: copy the input, then repeat passes over neighbouring pairs,
 * swapping each pair found out of order, until a pass swaps nothing.
 */
module Bubble {
  import opened Ordering

  /** How many items of `s` are strictly below `x`. */
  function CountBelow(x: int, s: seq<int>): (n: nat)
    ensures n <= |s|
  {
    if s == [] then 0 else (if s[0] < x then 1 else 0) + CountBelow(x, s[1..])
  }

  /** The inversion count of `s`: how many pairs of positions hold their items in the wrong order. */
  function Inversions(s: seq<int>): nat
  {
    if s == [] then 0 else CountBelow(s[0], s[1..]) + Inversions(s[1..])
  }

  /** `s` with the items at `k` and `k + 1` exchanged. */
  function SwapAdjacent(s: seq<int>, k: nat): (t: seq<int>)
    requires k + 1 < |s|
    ensures |t| == |s| && multiset(t) == multiset(s)
    ensures t[k] == s[k + 1] && t[k + 1] == s[k]
    ensures forall j :: 0 <= j < |s| && j != k && j != k + 1 ==> t[j] == s[j]
  {
    s[k := s[k + 1]][k + 1 := s[k]]
  }

  /** Exchanging two neighbours does not change how many items lie below `x`. */
  lemma {:induction false} CountBelowSwap(x: int, s: seq<int>, k: nat)
    requires k + 1 < |s|
    ensures CountBelow(x, SwapAdjacent(s, k)) == CountBelow(x, s)
  {
    var t := SwapAdjacent(s, k);
    if k == 0 {
      assert t[1..][1..] == s[2..] == s[1..][1..];
    } else {
      assert t[1..] == SwapAdjacent(s[1..], k - 1);
      CountBelowSwap(x, s[1..], k - 1);
    }
  }

  /** Exchanging an out-of-order pair of neighbours removes exactly one inversion. */
  lemma {:induction false} SwapReducesInversions(s: seq<int>, k: nat)
    requires k + 1 < |s| && s[k + 1] < s[k]
    ensures Inversions(SwapAdjacent(s, k)) == Inversions(s) - 1
  {
    var t := SwapAdjacent(s, k);
    if k == 0 {
      var rest := s[2..];
      assert s[1..] == [s[1]] + rest && s[1..][1..] == rest;
      assert t[1..] == [s[0]] + rest && t[1..][1..] == rest;
      assert CountBelow(s[0], s[1..]) == 1 + CountBelow(s[0], rest);
      assert CountBelow(s[1], t[1..]) == CountBelow(s[1], rest);
    } else {
      assert t[1..] == SwapAdjacent(s[1..], k - 1);
      CountBelowSwap(s[0], s[1..], k - 1);
      SwapReducesInversions(s[1..], k - 1);
    }
  }

  /**
   * The state of a pass of bubble_sort before the pair at `i`, `i + 1`:
   * `start` is what `out` held when the pass began and `cur` what it holds
   * now. `item1` is the item pairwise handed out for position `i`, read
   * before any swap at `i`, so it is the one the pass started with; the
   * current item there is never smaller. Past `i` nothing has changed yet.
   * A swap has happened exactly when some pair before `i` started out of
   * order, and each swap removed an inversion.
   */
  ghost predicate PassState(start: seq<int>, cur: seq<int>, i: int, item1: int, didSwap: bool) {
    |cur| == |start| && 0 <= i < |cur| &&
    item1 == start[i] && item1 <= cur[i] &&
    (forall k :: i < k < |cur| ==> cur[k] == start[k]) &&
    multiset(cur) == multiset(start) &&
    (didSwap <==> exists k :: 0 <= k < i && start[k + 1] < start[k]) &&
    (!didSwap ==> cur == start) &&
    Inversions(cur) <= Inversions(start) &&
    (didSwap ==> Inversions(cur) < Inversions(start))
  }

  /** A pass starts at the first pair with nothing swapped. */
  lemma PassBegin(start: seq<int>)
    requires |start| > 0
    ensures PassState(start, start, 0, start[0], false)
  {
  }

  /** A pair whose items the pass started with in order is left alone. */
  lemma PassKeep(start: seq<int>, cur: seq<int>, i: int, item1: int, didSwap: bool)
    requires PassState(start, cur, i, item1, didSwap) && i + 1 < |cur|
    requires !(cur[i + 1] < item1)
    ensures PassState(start, cur, i + 1, cur[i + 1], didSwap)
  {
  }

  /**
   * A pair whose items the pass started with out of order is exchanged; the
   * current item at `i` is at least as large, so the exchange removes an
   * inversion.
   */
  lemma PassSwap(start: seq<int>, cur: seq<int>, i: int, item1: int, didSwap: bool)
    requires PassState(start, cur, i, item1, didSwap) && i + 1 < |cur|
    requires cur[i + 1] < item1
    ensures PassState(start, SwapAdjacent(cur, i), i + 1, cur[i + 1], true)
  {
    SwapReducesInversions(cur, i);
  }

  /** At the last pair the pass is over: nothing swapped exactly when the pass started in order. */
  lemma PassEnd(start: seq<int>, cur: seq<int>, i: int, item1: int, didSwap: bool)
    requires PassState(start, cur, i, item1, didSwap) && i + 1 == |cur|
    ensures multiset(cur) == multiset(start)
    ensures didSwap <==> !AdjacentOrdered(start)
    ensures !didSwap ==> cur == start
    ensures didSwap ==> Inversions(cur) < Inversions(start)
  {
  }

  /**
   * The rest of one pass of the inner `for` loop, from the pair at `i`,
   * `i + 1` on, as a function of what `out` holds (`cur`), the item `item1`
   * pairwise handed out for position `i` and whether the pass has swapped
   * yet; the result is the list after the pass and the final flag.
   * `pairwise(enumerate(out))` reads each item one pair ahead, before the
   * previous pair's swap, so `item1` is carried over from the previous pair
   * rather than read again, while the swap exchanges what `out` holds now.
   */
  function PassFrom(cur: seq<int>, i: nat, item1: int, didSwap: bool): (r: (seq<int>, bool))
    requires i < |cur|
    ensures |r.0| == |cur|
    decreases |cur| - i
  {
    if i + 1 >= |cur| then (cur, didSwap)
    else if cur[i + 1] < item1 then PassFrom(SwapAdjacent(cur, i), i + 1, cur[i + 1], true)
    else PassFrom(cur, i + 1, cur[i + 1], didSwap)
  }

  /**
   * What a pass that began on `start` achieves, `r` being the list after it
   * and whether it swapped: it rearranges the list, swaps exactly when some
   * adjacent pair of `start` is out of order, leaves the list alone when it
   * does not swap and removes at least one inversion when it does.
   */
  ghost predicate PassOutcome(start: seq<int>, r: (seq<int>, bool)) {
    multiset(r.0) == multiset(start) &&
    (r.1 <==> !AdjacentOrdered(start)) &&
    (!r.1 ==> r.0 == start) &&
    (r.1 ==> Inversions(r.0) < Inversions(start))
  }

  /** From any state a pass can reach, the rest of the pass completes its outcome. */
  lemma {:induction false} PassFromEffect(start: seq<int>, cur: seq<int>, i: nat, item1: int, didSwap: bool)
    requires PassState(start, cur, i, item1, didSwap)
    ensures PassOutcome(start, PassFrom(cur, i, item1, didSwap))
    decreases |cur| - i
  {
    if i + 1 >= |cur| {
      PassEnd(start, cur, i, item1, didSwap);
    } else if cur[i + 1] < item1 {
      PassSwap(start, cur, i, item1, didSwap);
      PassFromEffect(start, SwapAdjacent(cur, i), i + 1, cur[i + 1], true);
      assert PassFrom(cur, i, item1, didSwap) == PassFrom(SwapAdjacent(cur, i), i + 1, cur[i + 1], true);
    } else {
      PassKeep(start, cur, i, item1, didSwap);
      PassFromEffect(start, cur, i + 1, cur[i + 1], didSwap);
      assert PassFrom(cur, i, item1, didSwap) == PassFrom(cur, i + 1, cur[i + 1], didSwap);
    }
  }

  /** A whole pass over `s`, starting at the first pair with nothing swapped. */
  function WholePass(s: seq<int>): (r: (seq<int>, bool))
    ensures |r.0| == |s|
  {
    if |s| == 0 then (s, false) else PassFrom(s, 0, s[0], false)
  }

  /**
   * A whole pass rearranges the list, swaps exactly when some adjacent pair
   * is out of order, changes nothing when it does not swap and removes an
   * inversion when it does.
   */
  lemma WholePassEffect(s: seq<int>)
    ensures multiset(WholePass(s).0) == multiset(s)
    ensures WholePass(s).1 <==> !AdjacentOrdered(s)
    ensures !WholePass(s).1 ==> WholePass(s).0 == s
    ensures WholePass(s).1 ==> Inversions(WholePass(s).0) < Inversions(s)
  {
    if |s| > 0 {
      PassBegin(s);
      PassFromEffect(s, s, 0, s[0], false);
    }
  }

  /** One pass of the inner `for` loop over `out`, in place. */
  method Pass(out: array<int>) returns (didSwap: bool)
    modifies out
    ensures (out[..], didSwap) == WholePass(old(out[..]))
  {
    didSwap := false;
    if out.Length == 0 {
      return;
    }
    ghost var start := out[..];
    var i := 0;
    var item1 := out[0];
    while i + 1 < out.Length
      invariant 0 <= i < out.Length
      invariant PassFrom(out[..], i, item1, didSwap) == WholePass(start)
      decreases out.Length - i
    {
      var item2 := out[i + 1];
      if item2 < item1 {
        ghost var before := out[..];
        out[i], out[i + 1] := out[i + 1], out[i];
        assert out[..] == SwapAdjacent(before, i);
        didSwap := true;
      }
      item1 := item2;
      i := i + 1;
    }
  }

  /**
   * bubble_sort: returns a sorted rearrangement of `arr`. `passes` counts the
   * runs of the inner loop; the outer loop ends after the first pass that
   * swaps nothing, so an input already in order takes exactly one pass.
   */
  method BubbleSort(arr: seq<int>) returns (r: seq<int>, ghost passes: nat)
    ensures Sorted(r) && multiset(r) == multiset(arr)
    ensures passes >= 1
    ensures Sorted(arr) ==> passes == 1
  {
    var out := new int[|arr|](k requires 0 <= k < |arr| => arr[k]);
    assert out[..] == arr;
    if Sorted(arr) {
      SortedIsAdjacentOrdered(arr);
    }
    var didSwap := true;
    passes := 0;
    while didSwap
      invariant multiset(out[..]) == multiset(arr)
      invariant !didSwap ==> AdjacentOrdered(out[..]) && passes >= 1
      invariant Sorted(arr) ==> out[..] == arr && passes <= 1 && (didSwap <==> passes == 0)
      decreases Inversions(out[..]), didSwap
    {
      ghost var before := out[..];
      didSwap := Pass(out);
      WholePassEffect(before);
      passes := passes + 1;
    }
    AdjacentOrderedIsSorted(out[..]);
    r := out[..];
  }
}
