/** Single-pass scans over an array: `findMax`, `sumArray`, `doubleElements`. */
module LinearScans {
  import opened Common
  import opened LargestNumber

  /**
   * `findMax` has the same body as `largest`: a running maximum seeded with
   * `arr[0]`, `undefined` (None) on an empty array.
   */
  method FindMax(arr: array<int>) returns (r: Option<int>)
    ensures arr.Length == 0 <==> r == None
    ensures r.Some? ==> IsMaximum(arr[..], r.value)
  {
    r := Largest(arr);
  }

  /** The sum of the elements, accumulated left to right from 0. */
  method SumArray(arr: array<int>) returns (sum: int)
    ensures sum == Sum(arr[..])
  {
    sum := 0;
    for i := 0 to arr.Length
      invariant sum == Sum(arr[..i])
    {
      assert arr[..i + 1][..i] == arr[..i];
      sum := sum + arr[i];
    }
    assert arr[..arr.Length] == arr[..];
  }

  /** A new list holding every element doubled; its sum is twice the original sum. */
  method DoubleElements(arr: array<int>) returns (result: seq<int>)
    ensures |result| == arr.Length
    ensures forall k :: 0 <= k < arr.Length ==> result[k] == 2 * arr[k]
    ensures Sum(result) == 2 * Sum(arr[..])
  {
    result := [];
    for i := 0 to arr.Length
      invariant |result| == i
      invariant forall k :: 0 <= k < i ==> result[k] == 2 * arr[k]
    {
      result := result + [arr[i] * 2];
    }
    SumScaled(arr[..], result);
  }

  /** A pointwise doubled sequence sums to twice as much. */
  lemma {:induction false} SumScaled(s: seq<int>, d: seq<int>)
    requires |d| == |s|
    requires forall k :: 0 <= k < |s| ==> d[k] == 2 * s[k]
    ensures Sum(d) == 2 * Sum(s)
  {
    if s != [] {
      SumScaled(s[..|s| - 1], d[..|d| - 1]);
    }
  }
}
