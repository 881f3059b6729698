/** In-place reversal by swapping from both ends (`reverseArray`, `reverseString`). */
module Reversal {

  /**
   * Swaps `arr[left]` and `arr[right]` while `left < right`, moving both indices
   * inwards.  Afterwards position `k` holds what position
   * `n - 1 - k` held.
   */
  method ReverseArray<T>(arr: array<T>)
    modifies arr
    ensures forall k :: 0 <= k < arr.Length ==> arr[k] == old(arr[arr.Length - 1 - k])
  {
    var left := 0;
    var right := arr.Length - 1;
    while left < right
      invariant 0 <= left <= arr.Length && right == arr.Length - 1 - left
      invariant left <= right + 2
      invariant forall k :: 0 <= k < left || right < k < arr.Length ==> arr[k] == old(arr[arr.Length - 1 - k])
      invariant forall k :: left <= k <= right ==> arr[k] == old(arr[k])
    {
      arr[left], arr[right] := arr[right], arr[left];
      left := left + 1;
      right := right - 1;
    }
  }

  /** Splits the string into a character array, reverses it in place and joins it. */
  method ReverseString(str: string) returns (r: string)
    ensures |r| == |str|
    ensures forall k :: 0 <= k < |str| ==> r[k] == str[|str| - 1 - k]
  {
    var arr := new char[|str|](i requires 0 <= i < |str| => str[i]);
    ReverseArray(arr);
    r := arr[..];
  }

  /** Reversing a string twice gives it back. */
  lemma ReverseStringTwice(str: string, r1: string, r2: string)
    requires |r1| == |str| && forall k :: 0 <= k < |str| ==> r1[k] == str[|str| - 1 - k]
    requires |r2| == |r1| && forall k :: 0 <= k < |r1| ==> r2[k] == r1[|r1| - 1 - k]
    ensures r2 == str
  {
    assert forall k :: 0 <= k < |str| ==> r2[k] == str[k];
  }
}
