/**
 * The sort contract shared by every algorithm of the benchmark: the result
 * is in non-decreasing order and holds the same multiset of elements as the
 * input.
 */
module Ordering {

  /** `s` is in non-decreasing order. */
  predicate Sorted(s: seq<int>) {
    forall i, j :: 0 <= i < j < |s| ==> s[i] <= s[j]
  }

  /** Every neighbouring pair of `s` is in order. */
  predicate AdjacentOrdered(s: seq<int>) {
    forall k :: 0 <= k && k + 1 < |s| ==> s[k] <= s[k + 1]
  }

  /** No element of `s` is smaller than `x`. */
  predicate LowerBound(x: int, s: seq<int>) {
    forall k :: 0 <= k < |s| ==> x <= s[k]
  }

  /** Putting a lower bound in front of a sorted sequence keeps it sorted. */
  lemma SortedCons(x: int, s: seq<int>)
    requires Sorted(s) && LowerBound(x, s)
    ensures Sorted([x] + s)
  {
    var t := [x] + s;
    forall i, j | 0 <= i < j < |t| ensures t[i] <= t[j] {
      if i > 0 {
        assert t[i] == s[i - 1] && t[j] == s[j - 1];
      } else {
        assert t[j] == s[j - 1];
      }
    }
  }

  /** A sorted sequence is bounded below by anything not above its head. */
  lemma SortedBoundedBelow(x: int, s: seq<int>)
    requires Sorted(s) && (s == [] || x <= s[0])
    ensures LowerBound(x, s)
  {
  }

  /** The head of a sorted sequence bounds its tail. */
  lemma SortedHeadBoundsTail(s: seq<int>)
    requires Sorted(s) && |s| > 0
    ensures Sorted(s[1..]) && LowerBound(s[0], s[1..])
  {
  }

  /**
   * A lower bound of two sequences, put in front of a sorted rearrangement
   * of both, gives a sorted sequence: the step every merge repeats.
   */
  lemma ConsMerged(x: int, a: seq<int>, b: seq<int>, rest: seq<int>)
    requires LowerBound(x, a) && LowerBound(x, b)
    requires Sorted(rest) && multiset(rest) == multiset(a) + multiset(b)
    ensures Sorted([x] + rest)
  {
    assert LowerBound(x, a + b);
    LowerBoundPermutation(x, a + b, rest);
    SortedCons(x, rest);
  }

  /** A lower bound of a sequence bounds every rearrangement of it. */
  lemma LowerBoundPermutation(x: int, a: seq<int>, b: seq<int>)
    requires LowerBound(x, a) && multiset(a) == multiset(b)
    ensures LowerBound(x, b)
  {
    forall k | 0 <= k < |b| ensures x <= b[k] {
      assert b[k] in multiset(a);
      var j :| 0 <= j < |a| && a[j] == b[k];
    }
  }

  /** A sorted sequence has its neighbours in order. */
  lemma SortedIsAdjacentOrdered(s: seq<int>)
    requires Sorted(s)
    ensures AdjacentOrdered(s)
  {
    forall k | 0 <= k && k + 1 < |s| ensures s[k] <= s[k + 1] {
    }
  }

  /** Ordered neighbours make the whole sequence ordered. */
  lemma {:induction false} AdjacentOrderedIsSorted(s: seq<int>)
    requires AdjacentOrdered(s)
    ensures Sorted(s)
  {
    if |s| > 1 {
      var tail := s[1..];
      assert AdjacentOrdered(tail) by {
        forall k | 0 <= k && k + 1 < |tail| ensures tail[k] <= tail[k + 1] {
          assert tail[k] == s[k + 1] && tail[k + 1] == s[k + 2];
        }
      }
      AdjacentOrderedIsSorted(tail);
      assert LowerBound(s[0], tail) by {
        forall k | 0 <= k < |tail| ensures s[0] <= tail[k] {
          assert s[0] <= s[1] == tail[0];
        }
      }
      SortedCons(s[0], tail);
      assert s == [s[0]] + tail;
    }
  }

  /** The head of a sorted sequence is its least element. */
  lemma SortedHeadIsLeast(s: seq<int>, x: int)
    requires Sorted(s) && x in multiset(s)
    ensures |s| > 0 && s[0] <= x
  {
    var k :| 0 <= k < |s| && s[k] == x;
  }

  /** Dropping the head of a sequence removes one occurrence of it from the multiset. */
  lemma MultisetTail(s: seq<int>)
    requires |s| > 0
    ensures multiset(s[1..]) == multiset(s) - multiset{s[0]}
  {
    assert s == [s[0]] + s[1..];
  }

  /** The tail of a sorted sequence is sorted. */
  lemma SortedTail(s: seq<int>)
    requires Sorted(s) && |s| > 0
    ensures Sorted(s[1..])
  {
  }

  /** Sequences that agree on their head and on their tail are equal. */
  lemma HeadTailEqual(a: seq<int>, b: seq<int>)
    requires |a| > 0 && |b| > 0 && a[0] == b[0] && a[1..] == b[1..]
    ensures a == b
  {
    assert a == [a[0]] + a[1..] && b == [b[0]] + b[1..];
  }

  /**
   * A multiset of integers has exactly one sorted arrangement, so any two
   * correct sorts return the same sequence on the same input.
   */
  lemma {:induction false} SortedPermutationUnique(a: seq<int>, b: seq<int>)
    requires Sorted(a) && Sorted(b) && multiset(a) == multiset(b)
    ensures a == b
  {
    assert |a| == |b| by {
      assert |a| == |multiset(a)| && |b| == |multiset(b)|;
    }
    if |a| > 0 {
      assert a[0] == b[0] by {
        SortedHeadIsLeast(a, b[0]);
        SortedHeadIsLeast(b, a[0]);
      }
      assert multiset(a[1..]) == multiset(b[1..]) by {
        MultisetTail(a);
        MultisetTail(b);
      }
      SortedTail(a);
      SortedTail(b);
      SortedPermutationUnique(a[1..], b[1..]);
      HeadTailEqual(a, b);
    }
  }
}
