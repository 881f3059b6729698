/** Pairs of elements with a given sum: brute force and with a set of seen values. */
module Pairs {

  /** `(s[x], s[y])` for some positions `x < y` whose elements sum to `target`. */
  ghost predicate IsSumPair(s: seq<int>, target: int, pair: (int, int)) {
    exists x, y :: 0 <= x < y < |s| && PairAt(s, target, pair, x, y)
  }

  /** The pair is taken at positions `x`, `y` and sums to `target`. */
  predicate PairAt(s: seq<int>, target: int, pair: (int, int), x: int, y: int)
    requires 0 <= x < |s| && 0 <= y < |s|
  {
    pair == (s[x], s[y]) && s[x] + s[y] == target
  }

  /** Position pairs visited by the nested loops before reaching `(i, j)`. */
  predicate Before(x: int, y: int, i: int, j: int) {
    x < i || (x == i && y < j)
  }

  /**
   * `findPairsWithSum`: for each `i < j` in order, push `[arr[i], arr[j]]`
   * when the two sum to `target`.  The result holds exactly the sum pairs.
   */
  method FindPairsWithSum(arr: seq<int>, target: int) returns (pairs: seq<(int, int)>)
    ensures forall p :: p in pairs <==> IsSumPair(arr, target, p)
  {
    pairs := [];
    for i := 0 to |arr|
      invariant forall p :: p in pairs <==>
        exists x, y :: 0 <= x < y < |arr| && x < i && PairAt(arr, target, p, x, y)
    {
      for j := i + 1 to |arr|
        invariant forall p :: p in pairs <==>
          exists x, y :: 0 <= x < y < |arr| && Before(x, y, i, j) && PairAt(arr, target, p, x, y)
      {
        if arr[i] + arr[j] == target {
          pairs := pairs + [(arr[i], arr[j])];
          assert PairAt(arr, target, (arr[i], arr[j]), i, j);
        }
      }
      forall p | p in pairs
        ensures exists x, y :: 0 <= x < y < |arr| && x < i + 1 && PairAt(arr, target, p, x, y)
      {
        var x, y :| 0 <= x < y < |arr| && Before(x, y, i, |arr|) && PairAt(arr, target, p, x, y);
      }
    }
  }

  /**
   * `findPairsOptimized`: for each element, if its complement
   * `target - num` was seen earlier push `[complement, num]`, then record
   * `num` as seen.  The result holds exactly the same pairs as the brute
   * force search, each once per later partner.
   */
  method FindPairsOptimized(arr: seq<int>, target: int) returns (pairs: seq<(int, int)>)
    ensures forall p :: p in pairs <==> IsSumPair(arr, target, p)
  {
    pairs := [];
    var seen: set<int> := {};
    for k := 0 to |arr|
      invariant seen == set x | 0 <= x < k :: arr[x]
      invariant forall p :: p in pairs <==>
        exists x, y :: 0 <= x < y < k && PairAt(arr, target, p, x, y)
    {
      var num := arr[k];
      var complement := target - num;
      if complement in seen {
        var x :| 0 <= x < k && arr[x] == complement;
        assert PairAt(arr, target, (complement, num), x, k);
        pairs := pairs + [(complement, num)];
      }
      seen := seen + {num};
    }
  }
}
