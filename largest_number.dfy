/** The largest element of an array (`largest`). */
module LargestNumber {
  import opened Common

  /**
   * A running maximum seeded with `arr[0]`.  On an empty array `arr[0]` is
   * `undefined` in the source and the loop does not run, so the result is
   * `None`.  The array is only read.
   */
  method Largest(arr: array<int>) returns (r: Option<int>)
    ensures arr.Length == 0 <==> r == None
    ensures r.Some? ==> IsMaximum(arr[..], r.value)
  {
    if arr.Length == 0 {
      return None;
    }
    var max := arr[0];
    for i := 1 to arr.Length
      invariant max in arr[..i]
      invariant forall k :: 0 <= k < i ==> arr[k] <= max
    {
      if arr[i] > max {
        max := arr[i];
      }
    }
    assert arr[..arr.Length] == arr[..];
    return Some(max);
  }

  /** The documented example: the maximum of [2, 1, 10, 33, 32, 22, 7] is 33. */
  lemma LargestExample()
    ensures IsMaximum([2, 1, 10, 33, 32, 22, 7], 33)
  {
    var s := [2, 1, 10, 33, 32, 22, 7];
    assert s[3] == 33;
  }
}
