/** The second largest element of an array (`secondLargestNumber`). */
module SecondLargestNumber {

  /** An integer or negative infinity, the seed of both running registers. */
  datatype ExtInt = NegInf | Fin(v: int)

  /** `x > e` for a finite `x`: every number exceeds negative infinity. */
  predicate Above(x: int, e: ExtInt) {
    e.NegInf? || x > e.v
  }

  /**
   * `v` is the second largest element of `s`, counting duplicates: some
   * position `j` holds a maximum of `s`, and `v` is at another position `i`
   * and is at least every element except the one at `j`.  A maximum that
   * occurs twice is therefore its own second largest.
   */
  ghost predicate IsSecondLargest(s: seq<int>, v: int) {
    exists i, j :: 0 <= i < |s| && 0 <= j < |s| && i != j && s[i] == v && SecondAt(s, i, j)
  }

  /** Position `j` holds a maximum and position `i` the maximum of the rest. */
  predicate SecondAt(s: seq<int>, i: nat, j: nat)
    requires i < |s| && j < |s|
  {
    (forall k :: 0 <= k < |s| ==> s[k] <= s[j]) &&
    (forall k :: 0 <= k < |s| && k != j ==> s[k] <= s[i])
  }

  /**
   * The scan with registers `max` and `secondmax`, both seeded with negative
   * infinity.  Fewer than two elements leave `secondmax` at negative infinity.
   */
  method SecondLargest(arr: array<int>) returns (r: ExtInt)
    ensures arr.Length < 2 ==> r == NegInf
    ensures arr.Length >= 2 ==> r.Fin? && IsSecondLargest(arr[..], r.v)
  {
    var max := NegInf;
    var secondmax := NegInf;
    ghost var mi: nat := 0;
    ghost var si: nat := 0;
    for i := 0 to arr.Length
      invariant i == 0 ==> max == NegInf
      invariant i >= 1 ==> mi < i && max == Fin(arr[mi])
      invariant i >= 1 ==> forall k :: 0 <= k < i ==> arr[k] <= arr[mi]
      invariant i < 2 ==> secondmax == NegInf
      invariant i >= 2 ==> si < i && si != mi && secondmax == Fin(arr[si])
      invariant i >= 2 ==> forall k :: 0 <= k < i && k != mi ==> arr[k] <= arr[si]
    {
      if Above(arr[i], max) {
        secondmax := max;
        si := mi;
        max := Fin(arr[i]);
        mi := i;
      } else if Above(arr[i], secondmax) {
        secondmax := Fin(arr[i]);
        si := i;
      }
    }
    r := secondmax;
    if arr.Length >= 2 {
      assert arr[..][si] == r.v && SecondAt(arr[..], si, mi);
    }
  }

  /** The running registers keep `secondmax <= max`: the second largest never exceeds the maximum. */
  lemma SecondBelowMax(s: seq<int>, v: int, m: int)
    requires IsSecondLargest(s, v)
    requires forall k :: 0 <= k < |s| ==> s[k] <= m
    ensures v <= m
  {
    var i, j :| 0 <= i < |s| && 0 <= j < |s| && i != j && s[i] == v && SecondAt(s, i, j);
  }

  /** The second largest element is unique. */
  lemma SecondLargestUnique(s: seq<int>, v1: int, v2: int)
    requires IsSecondLargest(s, v1) && IsSecondLargest(s, v2)
    ensures v1 == v2
  {
    var i1, j1 :| 0 <= i1 < |s| && 0 <= j1 < |s| && i1 != j1 && s[i1] == v1 && SecondAt(s, i1, j1);
    var i2, j2 :| 0 <= i2 < |s| && 0 <= j2 < |s| && i2 != j2 && s[i2] == v2 && SecondAt(s, i2, j2);
    AtMost(s, i1, j1, i2, j2);
    AtMost(s, i2, j2, i1, j1);
  }

  /** Helper of SecondLargestUnique: one witness pair bounds the other. */
  lemma AtMost(s: seq<int>, i1: nat, j1: nat, i2: nat, j2: nat)
    requires i1 < |s| && j1 < |s| && i2 < |s| && j2 < |s| && i1 != j1 && i2 != j2
    requires SecondAt(s, i1, j1) && SecondAt(s, i2, j2)
    ensures s[i1] <= s[i2]
  {
    if i1 == j2 {
      assert s[j1] <= s[i2];
    }
  }

  /** A maximum occurring at two positions is the second largest element. */
  lemma DuplicateMaximum(s: seq<int>, i: nat, j: nat)
    requires i < |s| && j < |s| && i != j && s[i] == s[j]
    requires forall k :: 0 <= k < |s| ==> s[k] <= s[j]
    ensures IsSecondLargest(s, s[j])
  {
    assert SecondAt(s, i, j);
  }

  /** The demo input: the second largest of [10, 1, 22, 33, 44, 101, 21, 23] is 44, and [5, 5] gives 5. */
  lemma SecondLargestExamples()
    ensures IsSecondLargest([10, 1, 22, 33, 44, 101, 21, 23], 44)
    ensures IsSecondLargest([5, 5], 5)
  {
    assert SecondAt([10, 1, 22, 33, 44, 101, 21, 23], 4, 5);
    assert SecondAt([5, 5], 0, 1);
  }
}
