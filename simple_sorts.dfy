/** The quadratic in-place sorts (`bubbleSort`, `selectionSort`). */
module SimpleSorts {
  import opened Common

  /**
   * `bubbleSort`: pass `i` bubbles the largest of `arr[0..n-i)` up to
   * position `n-1-i` by swapping adjacent out-of-order pairs.
   */
  method BubbleSort(arr: array<int>)
    modifies arr
    ensures Sorted(arr[..])
    ensures multiset(arr[..]) == old(multiset(arr[..]))
  {
    var n := arr.Length;
    var i := 0;
    while i < n - 1
      invariant 0 <= i <= n
      invariant n >= 1 ==> i <= n - 1
      invariant BubbleSplit(arr[..], n - i)
      invariant multiset(arr[..]) == old(multiset(arr[..]))
    {
      ghost var before := arr[..];
      BubblePass(arr, n - i);
      PassDone(before, arr[..], n - i, BubbleSplit(before, n - i));
      i := i + 1;
    }
    SplitSorted(arr[..], n - i);
  }

  /** With at most one cell before the split, the whole sequence is ascending. */
  lemma SplitSorted(s: seq<int>, limit: nat)
    requires limit <= 1 && BubbleSplit(s, limit)
    ensures Sorted(s)
  {
  }

  /**
   * The outer-loop invariant of `bubbleSort` with `limit = n - i`: the cells
   * from `limit` on are ascending and none of them is below a cell before `limit`.
   */
  predicate BubbleSplit(s: seq<int>, limit: nat) {
    (forall a, b :: limit <= a < b < |s| ==> s[a] <= s[b]) &&
    (forall a, b :: 0 <= a < limit <= b < |s| ==> s[a] <= s[b])
  }

  /**
   * The invariant of the inner loop of `bubbleSort` after `j` steps over the
   * prefix before `limit`, relative to the sequence `orig` it started from:
   * `s[j]` is the largest of `s[..j+1]`, the elements are those of `orig`,
   * the cells from `limit` on are untouched, and (when the outer split held
   * at the start) every prefix element is still at most every later one.
   */
  predicate PassInv(s: seq<int>, orig: seq<int>, j: int, limit: int, split: bool) {
    0 <= j < limit <= |s| == |orig| &&
    (forall a :: 0 <= a < j ==> s[a] <= s[j]) &&
    (forall a :: limit <= a < |s| ==> s[a] == orig[a]) &&
    multiset(s) == multiset(orig) &&
    (split ==> forall a, b :: 0 <= a < limit <= b < |s| ==> s[a] <= s[b])
  }

  /** One step of the inner loop when neighbours `j`, `j + 1` are out of order: they are exchanged. */
  lemma PassSwap(s: seq<int>, t: seq<int>, orig: seq<int>, j: int, limit: int, split: bool)
    requires PassInv(s, orig, j, limit, split) && j + 1 < limit && s[j] > s[j + 1]
    requires t == s[j := s[j + 1]][j + 1 := s[j]]
    ensures PassInv(t, orig, j + 1, limit, split)
  {
    assert forall a :: 0 <= a < j + 1 ==> t[a] <= t[j + 1];
  }

  /** One step of the inner loop when neighbours `j`, `j + 1` are in order: nothing moves. */
  lemma PassKeep(s: seq<int>, orig: seq<int>, j: int, limit: int, split: bool)
    requires PassInv(s, orig, j, limit, split) && j + 1 < limit && s[j] <= s[j + 1]
    ensures PassInv(s, orig, j + 1, limit, split)
  {
  }

  /**
   * The inner loop of `bubbleSort` over `arr[0..limit)`, ending in its
   * invariant for `j = limit - 1`: the last cell of that prefix holds its
   * largest element, the elements are the same as before, the cells from
   * `limit` on are untouched, and a prefix that was below the suffix still is.
   */
  method BubblePass(arr: array<int>, limit: int)
    requires 1 <= limit <= arr.Length
    modifies arr
    ensures PassInv(arr[..], old(arr[..]), limit - 1, limit, BubbleSplit(old(arr[..]), limit))
  {
    ghost var orig := arr[..];
    ghost var split := BubbleSplit(orig, limit);
    var j := 0;
    while j < limit - 1
      invariant j <= limit - 1
      invariant PassInv(arr[..], orig, j, limit, split)
    {
      if arr[j] > arr[j + 1] {
        ghost var s := arr[..];
        arr[j], arr[j + 1] := arr[j + 1], arr[j];
        PassSwap(s, arr[..], orig, j, limit, split);
      } else {
        PassKeep(arr[..], orig, j, limit, split);
      }
      j := j + 1;
    }
  }

  /** What the inner loop's invariant gives once `j` reaches `limit - 1`: the split moves down by one. */
  lemma PassDone(orig: seq<int>, s: seq<int>, limit: int, split: bool)
    requires PassInv(s, orig, limit - 1, limit, split)
    requires split == BubbleSplit(orig, limit)
    ensures split ==> BubbleSplit(s, limit - 1)
  {
  }

  /**
   * `selectionSort`: step `i` finds the index of the smallest of `arr[i..]`
   * and swaps it into position `i`.
   */
  method SelectionSort(arr: array<int>)
    modifies arr
    ensures Sorted(arr[..])
    ensures multiset(arr[..]) == old(multiset(arr[..]))
  {
    var n := arr.Length;
    var i := 0;
    while i < n - 1
      invariant 0 <= i <= n
      invariant n >= 1 ==> i <= n - 1
      invariant forall a, b :: 0 <= a < b < i ==> arr[a] <= arr[b]
      invariant forall a, b :: 0 <= a < i <= b < n ==> arr[a] <= arr[b]
      invariant multiset(arr[..]) == old(multiset(arr[..]))
    {
      var minIndex := i;
      for j := i + 1 to n
        invariant i <= minIndex < j
        invariant forall a :: i <= a < j ==> arr[minIndex] <= arr[a]
      {
        if arr[j] < arr[minIndex] {
          minIndex := j;
        }
      }
      Swap(arr, i, minIndex);
      i := i + 1;
    }
  }
}
