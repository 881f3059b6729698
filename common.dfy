/** Definitions shared by several of the algorithm modules. */
module Common {

  /** An optional value: `None` stands for JavaScript's `undefined` result. */
  datatype Option<+T> = None | Some(value: T)

  /** Ascending (non-decreasing) order. */
  predicate Sorted(s: seq<int>) {
    forall i, j :: 0 <= i < j < |s| ==> s[i] <= s[j]
  }

  /** `m` is the maximum of `s`: it occurs in `s` and no element exceeds it. */
  predicate IsMaximum(s: seq<int>, m: int) {
    m in s && forall k :: 0 <= k < |s| ==> s[k] <= m
  }

  /** The maximum of a sequence is unique. */
  lemma MaximumUnique(s: seq<int>, m1: int, m2: int)
    requires IsMaximum(s, m1) && IsMaximum(s, m2)
    ensures m1 == m2
  {
    var i1 :| 0 <= i1 < |s| && s[i1] == m1;
    var i2 :| 0 <= i2 < |s| && s[i2] == m2;
  }

  /** `base` multiplied by itself `e` times. */
  function Pow(base: int, e: nat): (r: int)
    ensures base >= 1 ==> r >= 1
  {
    if e == 0 then 1 else base * Pow(base, e - 1)
  }

  /** Sum of a sequence, adding from the left as the scans do. */
  function Sum(s: seq<int>): int {
    if s == [] then 0 else Sum(s[..|s| - 1]) + s[|s| - 1]
  }

  /** Exchanges two cells (`[arr[i], arr[j]] = [arr[j], arr[i]]`). */
  method Swap(arr: array<int>, i: int, j: int)
    requires 0 <= i < arr.Length && 0 <= j < arr.Length
    modifies arr
    ensures arr[i] == old(arr[j]) && arr[j] == old(arr[i])
    ensures forall k :: 0 <= k < arr.Length && k != i && k != j ==> arr[k] == old(arr[k])
    ensures multiset(arr[..]) == old(multiset(arr[..]))
  {
    arr[i], arr[j] := arr[j], arr[i];
  }
}
