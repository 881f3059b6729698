/** Merge sort over new arrays (`mergeSort`, `merge`). */
module MergeSort {
  import opened Common

  /**
   * The merge of two lists: repeatedly take the smaller head, the left one on
   * ties, and append whatever remains.
   */
  function Merged(left: seq<int>, right: seq<int>): seq<int>
    decreases |left| + |right|
  {
    if left == [] then right
    else if right == [] then left
    else if left[0] <= right[0] then [left[0]] + Merged(left[1..], right)
    else [right[0]] + Merged(left, right[1..])
  }

  /** Merging keeps every element: the result is a permutation of the concatenation. */
  lemma {:induction false} MergedPermutation(left: seq<int>, right: seq<int>)
    ensures multiset(Merged(left, right)) == multiset(left) + multiset(right)
    decreases |left| + |right|
  {
    if left != [] && right != [] {
      if left[0] <= right[0] {
        var m := Merged(left[1..], right);
        assert Merged(left, right) == [left[0]] + m;
        MergedPermutation(left[1..], right);
        MultisetCons(left[0], m);
        MultisetSplit(left);
      } else {
        var m := Merged(left, right[1..]);
        assert Merged(left, right) == [right[0]] + m;
        MergedPermutation(left, right[1..]);
        MultisetCons(right[0], m);
        MultisetSplit(right);
      }
    }
  }

  /** The multiset of a list with an element in front. */
  lemma MultisetCons(x: int, s: seq<int>)
    ensures multiset([x] + s) == multiset{x} + multiset(s)
  {
  }

  /** The multiset of a non-empty list is its head plus the multiset of its tail. */
  lemma MultisetSplit(s: seq<int>)
    requires s != []
    ensures multiset(s) == multiset{s[0]} + multiset(s[1..])
  {
    assert s == [s[0]] + s[1..];
  }

  /** Merging two ascending lists gives an ascending list that starts with one of the two heads. */
  lemma {:induction false} MergedSorted(left: seq<int>, right: seq<int>)
    requires Sorted(left) && Sorted(right)
    ensures Sorted(Merged(left, right))
    ensures Merged(left, right) != [] ==>
      (left != [] && Merged(left, right)[0] == left[0]) || (right != [] && Merged(left, right)[0] == right[0])
    decreases |left| + |right|
  {
    if left != [] && right != [] {
      if left[0] <= right[0] {
        MergedSorted(left[1..], right);
        SortedCons(left[0], Merged(left[1..], right));
      } else {
        MergedSorted(left, right[1..]);
        SortedCons(right[0], Merged(left, right[1..]));
      }
    }
  }

  /** Prepending an element no larger than the head keeps a list ascending. */
  lemma SortedCons(x: int, s: seq<int>)
    requires Sorted(s) && (s != [] ==> x <= s[0])
    ensures Sorted([x] + s)
  {
  }

  /** Taking the smaller head of two non-empty lists is the first step of their merge. */
  lemma MergedStep(left: seq<int>, right: seq<int>, i: nat, j: nat)
    requires i < |left| && j < |right|
    ensures left[i] <= right[j] ==> Merged(left[i..], right[j..]) == [left[i]] + Merged(left[i + 1..], right[j..])
    ensures left[i] > right[j] ==> Merged(left[i..], right[j..]) == [right[j]] + Merged(left[i..], right[j + 1..])
  {
    assert left[i..][1..] == left[i + 1..];
    assert right[j..][1..] == right[j + 1..];
  }

  /** Once one list is used up, the merge is the other list. */
  lemma MergedDone(left: seq<int>, right: seq<int>)
    requires left == [] || right == []
    ensures Merged(left, right) == left + right
  {
  }

  /** Moving the head of the pending part onto the output keeps the concatenation. */
  lemma AppendHead(result: seq<int>, x: int, tail: seq<int>)
    ensures result + ([x] + tail) == (result + [x]) + tail
  {
  }

  /** `merge`: a loop that pushes the smaller head, then appends both leftovers. */
  method Merge(left: seq<int>, right: seq<int>) returns (result: seq<int>)
    ensures result == Merged(left, right)
  {
    result := [];
    var i, j := 0, 0;
    assert left[0..] == left && right[0..] == right;
    while i < |left| && j < |right|
      invariant 0 <= i <= |left| && 0 <= j <= |right|
      invariant result + Merged(left[i..], right[j..]) == Merged(left, right)
      decreases |left| - i + |right| - j
    {
      MergedStep(left, right, i, j);
      if left[i] <= right[j] {
        AppendHead(result, left[i], Merged(left[i + 1..], right[j..]));
        result := result + [left[i]];
        i := i + 1;
      } else {
        AppendHead(result, right[j], Merged(left[i..], right[j + 1..]));
        result := result + [right[j]];
        j := j + 1;
      }
    }
    MergedDone(left[i..], right[j..]);
    result := result + left[i..] + right[j..];
  }

  /** Merging sorted permutations of the two halves gives a sorted permutation of the whole. */
  lemma MergeHalves(arr: seq<int>, mid: nat, left: seq<int>, right: seq<int>)
    requires mid <= |arr|
    requires Sorted(left) && multiset(left) == multiset(arr[..mid])
    requires Sorted(right) && multiset(right) == multiset(arr[mid..])
    ensures Sorted(Merged(left, right))
    ensures multiset(Merged(left, right)) == multiset(arr)
  {
    MergedSorted(left, right);
    MergedPermutation(left, right);
    assert arr == arr[..mid] + arr[mid..];
  }

  /**
   * `mergeSort`: lists of length at most 1 are returned as they are; longer
   * ones are split at `floor(length / 2)`, both halves sorted and merged.
   * The result is ascending and a permutation of the input.
   */
  function MergeSort(arr: seq<int>): (r: seq<int>)
    ensures Sorted(r)
    ensures multiset(r) == multiset(arr)
    decreases |arr|
  {
    if |arr| <= 1 then arr
    else
      var mid := |arr| / 2;
      var left := MergeSort(arr[..mid]);
      var right := MergeSort(arr[mid..]);
      MergeHalves(arr, mid, left, right);
      Merged(left, right)
  }
}
