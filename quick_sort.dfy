/** In-place quicksort with the Lomuto partition (`quickSort`, `partition`). */
module QuickSort {
  import opened Common

  /** `s[low..high]` (inclusive) is ascending. */
  predicate SortedSeg(s: seq<int>, low: int, high: int) {
    forall i, j :: 0 <= low <= i < j <= high < |s| ==> s[i] <= s[j]
  }

  /** `s` and `t` agree outside positions `low..high`. */
  predicate SameOutside(s: seq<int>, t: seq<int>, low: int, high: int) {
    |s| == |t| && forall k :: 0 <= k < |s| && !(low <= k <= high) ==> s[k] == t[k]
  }

  /**
   * Lomuto partition around the pivot `arr[high]`: elements smaller than the
   * pivot are swapped to the front, then the pivot is swapped into place
   * `p`.  Afterwards `arr[low..p)` is below the pivot and `arr(p..high]` is
   * not; nothing outside `[low, high]` moves.
   */
  method Partition(arr: array<int>, low: int, high: int) returns (p: int)
    requires 0 <= low <= high < arr.Length
    modifies arr
    ensures low <= p <= high
    ensures arr[p] == old(arr[high])
    ensures forall k :: low <= k < p ==> arr[k] < arr[p]
    ensures forall k :: p < k <= high ==> arr[k] >= arr[p]
    ensures SameOutside(arr[..], old(arr[..]), low, high)
    ensures multiset(arr[..]) == old(multiset(arr[..]))
  {
    var pivot := arr[high];
    var i := low - 1;
    for j := low to high
      invariant low - 1 <= i < j
      invariant arr[high] == pivot
      invariant forall k :: low <= k <= i ==> arr[k] < pivot
      invariant forall k :: i < k < j ==> arr[k] >= pivot
      invariant SameOutside(arr[..], old(arr[..]), low, high)
      invariant multiset(arr[..]) == old(multiset(arr[..]))
    {
      if arr[j] < pivot {
        i := i + 1;
        Swap(arr, i, j);
      }
    }
    Swap(arr, i + 1, high);
    return i + 1;
  }

  /** The multiset of a segment follows from the whole sequence when the rest is unchanged. */
  lemma SegmentPermutation(before: seq<int>, after: seq<int>, low: int, high: int)
    requires 0 <= low <= high + 1 <= |after|
    requires SameOutside(after, before, low, high)
    requires multiset(after) == multiset(before)
    ensures multiset(after[low..high + 1]) == multiset(before[low..high + 1])
  {
    var A, X, C := after[..low], after[low..high + 1], after[high + 1..];
    var Y := before[low..high + 1];
    assert after == A + X + C;
    assert before == A + Y + C;
    assert multiset(after) == multiset(A) + multiset(X) + multiset(C);
    assert multiset(before) == multiset(A) + multiset(Y) + multiset(C);
    assert multiset(X) == multiset(after) - multiset(A) - multiset(C);
    assert multiset(Y) == multiset(before) - multiset(A) - multiset(C);
  }

  /**
   * Rearranging the segment `[low, high]` keeps a bound that held on all of
   * it: below the pivot stays below, at least the pivot stays at least.
   */
  lemma SegmentKeepsBound(before: seq<int>, after: seq<int>, low: int, high: int, pivot: int, below: bool)
    requires 0 <= low <= high + 1 <= |after|
    requires SameOutside(after, before, low, high)
    requires multiset(after) == multiset(before)
    requires forall k :: low <= k <= high ==> (before[k] < pivot <==> below)
    ensures forall k :: low <= k <= high ==> (after[k] < pivot <==> below)
  {
    SegmentPermutation(before, after, low, high);
    forall k | low <= k <= high
      ensures after[k] < pivot <==> below
    {
      assert after[k] == after[low..high + 1][k - low];
      assert after[k] in multiset(after[low..high + 1]);
      var m :| 0 <= m < high + 1 - low && before[low..high + 1][m] == after[k];
      assert before[low + m] == after[k];
    }
  }

  /**
   * The correctness step of `quickSort`: partitioning (`a0` to `a1`), then
   * sorting the left side (`a2`) and the right side (`a3`) in place, sorts
   * the whole segment and changes nothing else.
   */
  lemma QuickSortStep(a0: seq<int>, a1: seq<int>, a2: seq<int>, a3: seq<int>, low: int, p: int, high: int)
    requires 0 <= low <= p <= high < |a0|
    requires SameOutside(a1, a0, low, high) && multiset(a1) == multiset(a0)
    requires forall k :: low <= k < p ==> a1[k] < a1[p]
    requires forall k :: p < k <= high ==> a1[k] >= a1[p]
    requires SameOutside(a2, a1, low, p - 1) && multiset(a2) == multiset(a1) && SortedSeg(a2, low, p - 1)
    requires SameOutside(a3, a2, p + 1, high) && multiset(a3) == multiset(a2) && SortedSeg(a3, p + 1, high)
    ensures SortedSeg(a3, low, high)
    ensures SameOutside(a3, a0, low, high)
    ensures multiset(a3) == multiset(a0)
  {
    var pivot := a1[p];
    SegmentKeepsBound(a1, a2, low, p - 1, pivot, true);
    SegmentKeepsBound(a2, a3, p + 1, high, pivot, false);
    assert a3[p] == pivot;
    assert forall k :: low <= k < p ==> a3[k] == a2[k];
  }

  /**
   * `quickSort(arr, low, high)`: when `low < high`, partition and sort both
   * sides of the pivot.  Afterwards `arr[low..high]` is ascending, holds the
   * same elements as before, and nothing else has changed.
   */
  method QuickSort(arr: array<int>, low: int, high: int)
    requires low < high ==> 0 <= low && high < arr.Length
    modifies arr
    ensures SortedSeg(arr[..], low, high)
    ensures SameOutside(arr[..], old(arr[..]), low, high)
    ensures multiset(arr[..]) == old(multiset(arr[..]))
    decreases high - low
  {
    if low < high {
      ghost var a0 := arr[..];
      var p := Partition(arr, low, high);
      ghost var a1 := arr[..];
      QuickSort(arr, low, p - 1);
      ghost var a2 := arr[..];
      QuickSort(arr, p + 1, high);
      QuickSortStep(a0, a1, a2, arr[..], low, p, high);
    }
  }

  /** The default call `quickSort(arr)`: sorts the whole array in place. */
  method Sort(arr: array<int>)
    modifies arr
    ensures Sorted(arr[..])
    ensures multiset(arr[..]) == old(multiset(arr[..]))
  {
    QuickSort(arr, 0, arr.Length - 1);
  }
}
