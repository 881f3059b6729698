/** All subsets of a list by backtracking (`generateSubsets`). */
module Subsets {
  import opened Common

  /** The elements of `xs` whose flag in `mask` is set, in order. */
  function Pick(xs: seq<int>, mask: seq<bool>): (r: seq<int>)
    requires |mask| == |xs|
    ensures |r| <= |xs|
  {
    if xs == [] then [] else (if mask[0] then [xs[0]] else []) + Pick(xs[1..], mask[1..])
  }

  /**
   * The lists that `backtrack(index, current)` pushes, in order: first every
   * extension that leaves out `arr[index]`, then every one that keeps it.
   */
  function SubsetsFrom(arr: seq<int>, index: nat, current: seq<int>): seq<seq<int>>
    requires index <= |arr|
    decreases |arr| - index
  {
    if index == |arr| then [current]
    else SubsetsFrom(arr, index + 1, current) + SubsetsFrom(arr, index + 1, current + [arr[index]])
  }

  /** Backtracking from `index` yields `2^(n - index)` lists. */
  lemma {:induction false} SubsetsFromCount(arr: seq<int>, index: nat, current: seq<int>)
    requires index <= |arr|
    ensures |SubsetsFrom(arr, index, current)| == Pow(2, |arr| - index)
    decreases |arr| - index
  {
    if index < |arr| {
      SubsetsFromCount(arr, index + 1, current);
      SubsetsFromCount(arr, index + 1, current + [arr[index]]);
    }
  }

  /** Selecting from a non-empty list: the head's flag decides whether it is kept. */
  lemma PickCons(xs: seq<int>, b: bool, m: seq<bool>)
    requires xs != [] && |m| == |xs| - 1
    ensures Pick(xs, [b] + m) == (if b then [xs[0]] else []) + Pick(xs[1..], m)
  {
    assert ([b] + m)[1..] == m;
  }

  /** Every list backtracking from `index` yields is `current` followed by a selection of `arr[index..]`. */
  lemma SubsetsFromSound(arr: seq<int>, index: nat, current: seq<int>, s: seq<int>)
    requires index <= |arr|
    requires s in SubsetsFrom(arr, index, current)
    ensures exists mask :: |mask| == |arr| - index && s == current + Pick(arr[index..], mask)
  {
    var mask := SoundMask(arr, index, current, s);
  }

  /** The selection behind a list that backtracking yields, found by following the recursion. */
  lemma {:induction false} SoundMask(arr: seq<int>, index: nat, current: seq<int>, s: seq<int>) returns (mask: seq<bool>)
    requires index <= |arr|
    requires s in SubsetsFrom(arr, index, current)
    ensures |mask| == |arr| - index && s == current + Pick(arr[index..], mask)
    decreases |arr| - index
  {
    var rest := arr[index..];
    if index == |arr| {
      mask := [];
      assert s == current + Pick(rest, mask);
    } else {
      assert rest[1..] == arr[index + 1..];
      var ext := current + [arr[index]];
      var without := SubsetsFrom(arr, index + 1, current);
      assert SubsetsFrom(arr, index, current) == without + SubsetsFrom(arr, index + 1, ext);
      if s in without {
        var m := SoundMask(arr, index + 1, current, s);
        PickCons(rest, false, m);
        mask := [false] + m;
      } else {
        var m := SoundMask(arr, index + 1, ext, s);
        PickCons(rest, true, m);
        assert ext + Pick(rest[1..], m) == current + ([rest[0]] + Pick(rest[1..], m));
        mask := [true] + m;
      }
    }
  }

  /** Every selection of `arr[index..]`, after `current`, is among the lists backtracking yields. */
  lemma {:induction false} SubsetsFromComplete(arr: seq<int>, index: nat, current: seq<int>, mask: seq<bool>)
    requires index <= |arr| && |mask| == |arr| - index
    ensures current + Pick(arr[index..], mask) in SubsetsFrom(arr, index, current)
    decreases |arr| - index
  {
    var rest := arr[index..];
    if index == |arr| {
      assert current + Pick(rest, mask) == current;
    } else {
      var tail := arr[index + 1..];
      assert rest[1..] == tail;
      if mask[0] {
        SubsetsFromComplete(arr, index + 1, current + [arr[index]], mask[1..]);
        assert current + Pick(rest, mask) == current + [arr[index]] + Pick(tail, mask[1..]);
      } else {
        SubsetsFromComplete(arr, index + 1, current, mask[1..]);
        assert current + Pick(rest, mask) == current + Pick(tail, mask[1..]);
      }
    }
  }

  /** The backtracking state: the shared `current` list and the `result` list it pushes copies into. */
  class SubsetBuilder {
    const arr: seq<int>
    var current: seq<int>
    var result: seq<seq<int>>

    constructor (arr: seq<int>)
      ensures this.arr == arr && current == [] && result == []
    {
      this.arr := arr;
      current := [];
      result := [];
    }

    /**
     * `backtrack(index, current)`: at the end of the list push a copy of
     * `current`; otherwise recurse without `arr[index]`, then push it,
     * recurse with it, and pop it again.
     */
    method Backtrack(index: nat)
      requires index <= |arr|
      modifies this
      ensures current == old(current)
      ensures result == old(result) + SubsetsFrom(arr, index, old(current))
      decreases |arr| - index
    {
      if index == |arr| {
        result := result + [current];
        return;
      }
      Backtrack(index + 1);
      current := current + [arr[index]];
      Backtrack(index + 1);
      current := current[..|current| - 1];
    }
  }

  /**
   * `generateSubsets`: `2^n` lists, which are exactly the selections of
   * elements of `arr` in their original order.
   */
  method GenerateSubsets(arr: seq<int>) returns (result: seq<seq<int>>)
    ensures result == SubsetsFrom(arr, 0, [])
    ensures |result| == Pow(2, |arr|)
    ensures forall s :: s in result <==> exists mask :: |mask| == |arr| && s == Pick(arr, mask)
  {
    var builder := new SubsetBuilder(arr);
    builder.Backtrack(0);
    result := builder.result;
    SubsetsFromCount(arr, 0, []);
    assert arr[0..] == arr;
    forall s | s in result
      ensures exists mask :: |mask| == |arr| && s == Pick(arr, mask)
    {
      SubsetsFromSound(arr, 0, [], s);
      var mask :| |mask| == |arr| && s == [] + Pick(arr[0..], mask);
      assert s == Pick(arr, mask);
    }
    forall mask | |mask| == |arr|
      ensures Pick(arr, mask) in result
    {
      SubsetsFromComplete(arr, 0, [], mask);
      assert [] + Pick(arr[0..], mask) == Pick(arr, mask);
    }
  }
}
