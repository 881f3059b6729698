/** The three Fibonacci variants: naive recursion, memoised recursion, iteration. */
module Fibonacci {

  /** The naive doubly recursive definition (`fibonacciBad`); `n <= 1` returns `n`. */
  function FibonacciBad(n: int): (r: int)
    ensures n >= 0 ==> r >= 0
    ensures n >= 1 ==> r >= 1
    decreases n
  {
    if n <= 1 then n else FibonacciBad(n - 1) + FibonacciBad(n - 2)
  }

  /** The memo object shared by all recursive calls: computed values by argument. */
  class Memo {
    var table: map<int, int>

    constructor ()
      ensures table == map[]
    {
      table := map[];
    }

    /** Every cached value is the Fibonacci number of its key. */
    predicate Consistent()
      reads this
    {
      forall k :: k in table ==> table[k] == FibonacciBad(k)
    }
  }

  /**
   * `fibonacciMemo`: answer from the memo when present; otherwise compute
   * recursively and record the result for `n > 1`.
   */
  method FibonacciMemo(n: int, memo: Memo) returns (r: int)
    requires memo.Consistent()
    modifies memo
    ensures memo.Consistent()
    ensures r == FibonacciBad(n)
    ensures n > 1 ==> n in memo.table
    ensures old(memo.table).Keys <= memo.table.Keys
    ensures forall k :: k in memo.table ==> k in old(memo.table) || 2 <= k <= n
    decreases n
  {
    if n in memo.table {
      return memo.table[n];
    }
    if n <= 1 {
      return n;
    }
    var a := FibonacciMemo(n - 1, memo);
    var b := FibonacciMemo(n - 2, memo);
    memo.table := memo.table[n := a + b];
    return memo.table[n];
  }

  /** The default call `fibonacciMemo(n)`, which starts from an empty memo. */
  method FibonacciMemoFresh(n: int) returns (r: int)
    ensures r == FibonacciBad(n)
  {
    var memo := new Memo();
    r := FibonacciMemo(n, memo);
  }

  /** `fibonacciIterative`: two registers `prev`, `curr` advanced from 2 up to `n`. */
  method FibonacciIterative(n: int) returns (r: int)
    ensures r == FibonacciBad(n)
  {
    if n <= 1 {
      return n;
    }
    var prev, curr := 0, 1;
    for i := 2 to n + 1
      invariant prev == FibonacciBad(i - 2) && curr == FibonacciBad(i - 1)
    {
      var next := prev + curr;
      prev := curr;
      curr := next;
    }
    return curr;
  }
}
