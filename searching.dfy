/** Binary and linear search (`binarySearch`, `linearSearch`). */
module Searching {
  import opened Common

  /**
   * Binary search over `[left, right]`, halving at `mid = floor((left + right) / 2)`.
   * A returned index always holds `target`; on an ascending array, -1 means
   * that `target` does not occur.
   */
  method BinarySearch(sortedArr: array<int>, target: int) returns (r: int)
    ensures r == -1 || (0 <= r < sortedArr.Length && sortedArr[r] == target)
    ensures Sorted(sortedArr[..]) && r == -1 ==> target !in sortedArr[..]
  {
    var left := 0;
    var right := sortedArr.Length - 1;
    while left <= right
      invariant 0 <= left <= right + 1 <= sortedArr.Length
      invariant Sorted(sortedArr[..]) ==> forall k :: 0 <= k < left ==> sortedArr[k] != target
      invariant Sorted(sortedArr[..]) ==> forall k :: right < k < sortedArr.Length ==> sortedArr[k] != target
      decreases right - left
    {
      var mid := (left + right) / 2;
      if sortedArr[mid] == target {
        return mid;
      } else if sortedArr[mid] < target {
        assert Sorted(sortedArr[..]) ==> forall k :: 0 <= k <= mid ==> sortedArr[k] <= sortedArr[..][mid];
        left := mid + 1;
      } else {
        assert Sorted(sortedArr[..]) ==> forall k :: mid <= k < sortedArr.Length ==> sortedArr[..][mid] <= sortedArr[k];
        right := mid - 1;
      }
    }
    return -1;
  }

  /** The first index holding `target`, or -1 when there is none. */
  method LinearSearch(arr: array<int>, target: int) returns (r: int)
    ensures -1 <= r < arr.Length
    ensures r == -1 <==> target !in arr[..]
    ensures r != -1 ==> arr[r] == target && forall k :: 0 <= k < r ==> arr[k] != target
  {
    for i := 0 to arr.Length
      invariant forall k :: 0 <= k < i ==> arr[k] != target
    {
      if arr[i] == target {
        return i;
      }
    }
    return -1;
  }
}
