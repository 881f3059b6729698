/** All orderings of a list by backtracking (`permutations`). */
module Permutations {

  /** `s` without its element at position `i`. */
  function RemoveAt(s: seq<int>, i: nat): (r: seq<int>)
    requires i < |s|
    ensures |r| == |s| - 1
    ensures multiset(r) + multiset{s[i]} == multiset(s)
  {
    assert s == s[..i] + [s[i]] + s[i + 1..];
    s[..i] + s[i + 1..]
  }

  /** `n!` */
  function Fact(n: nat): nat {
    if n == 0 then 1 else n * Fact(n - 1)
  }

  /**
   * The lists that `backtrack(current, remaining)` pushes, in order: for
   * each position `i` of `remaining`, every completion of `current` extended
   * by `remaining[i]`.
   */
  function Perms(current: seq<int>, remaining: seq<int>): seq<seq<int>>
    decreases |remaining|, 1, 0
  {
    if |remaining| == 0 then [current] else PermsUpTo(current, remaining, |remaining|)
  }

  /** What the loop of `backtrack(current, remaining)` has pushed after its first `i` rounds. */
  function PermsUpTo(current: seq<int>, remaining: seq<int>, i: nat): seq<seq<int>>
    requires i <= |remaining|
    decreases |remaining|, 0, i
  {
    if i == 0 then []
    else PermsUpTo(current, remaining, i - 1) + Perms(current + [remaining[i - 1]], RemoveAt(remaining, i - 1))
  }

  /** Every list pushed holds `current` and `remaining` together: a permutation of them. */
  lemma {:induction false} PermsArePermutations(current: seq<int>, remaining: seq<int>, p: seq<int>)
    requires p in Perms(current, remaining)
    ensures multiset(p) == multiset(current) + multiset(remaining)
    decreases |remaining|, 1, 0
  {
    if |remaining| != 0 {
      PermsUpToArePermutations(current, remaining, |remaining|, p);
    }
  }

  /** The same for the lists pushed by the first `i` rounds of the loop. */
  lemma {:induction false} PermsUpToArePermutations(current: seq<int>, remaining: seq<int>, i: nat, p: seq<int>)
    requires i <= |remaining| && p in PermsUpTo(current, remaining, i)
    ensures multiset(p) == multiset(current) + multiset(remaining)
    decreases |remaining|, 0, i
  {
    if i > 0 {
      if p in PermsUpTo(current, remaining, i - 1) {
        PermsUpToArePermutations(current, remaining, i - 1, p);
      } else {
        var x := remaining[i - 1];
        PermsArePermutations(current + [x], RemoveAt(remaining, i - 1), p);
      }
    }
  }

  /**
   * Every ordering of `remaining` after `current` is pushed: a list that
   * starts with `current` and continues with a permutation of `remaining`
   * occurs among the results.
   */
  lemma {:induction false} PermsComplete(current: seq<int>, remaining: seq<int>, p: seq<int>)
    requires |current| <= |p| && p[..|current|] == current
    requires multiset(p[|current|..]) == multiset(remaining)
    ensures p in Perms(current, remaining)
    decreases |remaining|
  {
    var rest := p[|current|..];
    if |remaining| == 0 {
      assert |rest| == |multiset(rest)| == 0;
      assert rest == [];
      assert p == p[..|current|] + rest == current;
      assert Perms(current, remaining) == [current];
    } else {
      assert |rest| == |multiset(remaining)| > 0;
      var x := rest[0];
      assert x in multiset(remaining);
      var i :| 0 <= i < |remaining| && remaining[i] == x;
      var next := current + [x];
      var others := RemoveAt(remaining, i);
      assert p[..|next|] == next;
      assert p[|next|..] == rest[1..];
      assert rest == [x] + rest[1..];
      assert multiset(rest[1..]) == multiset(others) by {
        assert multiset(rest) == multiset{x} + multiset(rest[1..]);
        assert multiset(rest[1..]) == multiset(rest) - multiset{x};
        assert multiset(others) == multiset(remaining) - multiset{x};
      }
      PermsComplete(next, others, p);
      PermsUpToContains(current, remaining, i, |remaining|, p);
    }
  }

  /** What round `i` of the loop pushes is still among the pushed lists after any later round `j`. */
  lemma {:induction false} PermsUpToContains(current: seq<int>, remaining: seq<int>, i: nat, j: nat, p: seq<int>)
    requires i < j <= |remaining|
    requires p in Perms(current + [remaining[i]], RemoveAt(remaining, i))
    ensures p in PermsUpTo(current, remaining, j)
    decreases j
  {
    if j > i + 1 {
      PermsUpToContains(current, remaining, i, j - 1, p);
    }
  }

  /** Backtracking over `n` remaining elements pushes `n!` lists. */
  lemma {:induction false} PermsCount(current: seq<int>, remaining: seq<int>)
    ensures |Perms(current, remaining)| == Fact(|remaining|)
    decreases |remaining|, 1, 0
  {
    if |remaining| != 0 {
      PermsUpToCount(current, remaining, |remaining|);
    }
  }

  /** The first `i` rounds of the loop push `i * (n - 1)!` lists. */
  lemma {:induction false} PermsUpToCount(current: seq<int>, remaining: seq<int>, i: nat)
    requires 0 < |remaining| && i <= |remaining|
    ensures |PermsUpTo(current, remaining, i)| == i * Fact(|remaining| - 1)
    decreases |remaining|, 0, i
  {
    if i > 0 {
      var f := Fact(|remaining| - 1);
      var earlier := PermsUpTo(current, remaining, i - 1);
      var latest := Perms(current + [remaining[i - 1]], RemoveAt(remaining, i - 1));
      PermsUpToCount(current, remaining, i - 1);
      PermsCount(current + [remaining[i - 1]], RemoveAt(remaining, i - 1));
      assert |earlier| == (i - 1) * f && |latest| == f;
      assert PermsUpTo(current, remaining, i) == earlier + latest;
      MulStep(i, f);
    }
  }

  /** `i * f` is `(i - 1) * f` plus one more `f`. */
  lemma MulStep(i: nat, f: nat)
    requires i > 0
    ensures (i - 1) * f + f == i * f
  {
  }

  /** The backtracking state: the shared `current` list and the `result` list it pushes copies into. */
  class PermutationBuilder {
    var current: seq<int>
    var result: seq<seq<int>>

    constructor ()
      ensures current == [] && result == []
    {
      current := [];
      result := [];
    }

    /**
     * `backtrack(current, remaining)`: with nothing remaining push a copy of
     * `current`; otherwise, for each `i`, push `remaining[i]`, recurse on the
     * other elements and pop it again.
     */
    method Backtrack(remaining: seq<int>)
      modifies this
      ensures current == old(current)
      ensures result == old(result) + Perms(old(current), remaining)
      decreases |remaining|
    {
      if |remaining| == 0 {
        result := result + [current];
        return;
      }
      for i := 0 to |remaining|
        invariant current == old(current)
        invariant result == old(result) + PermsUpTo(old(current), remaining, i)
      {
        ghost var before := result;
        current := current + [remaining[i]];
        var newRemaining := remaining[..i] + remaining[i + 1..];
        assert newRemaining == RemoveAt(remaining, i);
        Backtrack(newRemaining);
        assert result == before + Perms(old(current) + [remaining[i]], RemoveAt(remaining, i));
        assert PermsUpTo(old(current), remaining, i + 1)
          == PermsUpTo(old(current), remaining, i) + Perms(old(current) + [remaining[i]], RemoveAt(remaining, i));
        current := current[..|current| - 1];
      }
    }
  }

  /** `permutations`: `n!` lists, which are exactly the permutations of `arr`. */
  method GeneratePermutations(arr: seq<int>) returns (result: seq<seq<int>>)
    ensures result == Perms([], arr)
    ensures |result| == Fact(|arr|)
    ensures forall p :: p in result <==> multiset(p) == multiset(arr)
  {
    var builder := new PermutationBuilder();
    builder.Backtrack(arr);
    result := builder.result;
    PermsCount([], arr);
    forall p | p in result
      ensures multiset(p) == multiset(arr)
    {
      PermsArePermutations([], arr, p);
    }
    forall p | multiset(p) == multiset(arr)
      ensures p in result
    {
      assert p[..0] == [] && p[0..] == p;
      PermsComplete([], arr, p);
    }
  }
}
