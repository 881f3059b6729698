/** Whether an integer reads the same forwards and backwards in decimal (`checkPalindrom`). */
module NumberIsPalindrom {
  import opened DecimalDigits

  /**
   * Negative numbers are never palindromes; otherwise the digits are reversed
   * into `newNum` and compared with the original.
   */
  method CheckPalindrom(num: int) returns (b: bool)
    ensures num < 0 ==> !b
    ensures num >= 0 ==> (b <==> RevDigits(num) == num)
  {
    if num < 0 {
      return false;
    }
    var oldNum: nat := num;
    var n: nat := num;
    var newNum: nat := 0;
    ghost var D := Digits(oldNum);
    ghost var k: nat := 0;
    while n > 0
      invariant k <= |D|
      invariant Digits(n) == D[k..]
      invariant newNum == Value(Rev(D[..k]))
      decreases n
    {
      ReverseStep(D, k, n, newNum);
      var lastdigit := n % 10;
      newNum := newNum * 10 + lastdigit;
      n := n / 10;
      k := k + 1;
    }
    ReverseDone(oldNum, k, newNum);
    b := oldNum == newNum;
  }

  /** A number is a palindrome exactly when its digit sequence is. */
  predicate IsPalindrome(num: int) {
    num >= 0 && Rev(Digits(num)) == Digits(num)
  }

  /** The method's verdict agrees with the digit-sequence definition, for every integer. */
  lemma CheckPalindromMeaning(num: int)
    ensures IsPalindrome(num) <==> num >= 0 && RevDigits(num) == num
  {
    if num >= 0 {
      PalindromeDigits(num);
    }
  }

  /** Every single-digit non-negative number, zero included, is a palindrome. */
  lemma SingleDigitPalindrome(num: int)
    requires 0 <= num < 10
    ensures RevDigits(num) == num
  {
    var d: nat := num;
    if d == 0 {
      assert Digits(d) == [];
      assert Rev([]) == [];
    } else {
      assert d / 10 == 0 && d % 10 == d;
      assert Digits(d) == [d % 10] + Digits(d / 10);
      assert Digits(d) == [d];
      assert Rev([d]) == [d];
      assert [d][1..] == [];
      assert Value([d]) == d + 10 * Value([]);
    }
    assert RevDigits(d) == d;
  }

  /** The documented examples: 121 and the demo input 101 are palindromes, 10 is not. */
  lemma PalindromeExamples()
    ensures RevDigits(121) == 121
    ensures RevDigits(101) == 101
    ensures RevDigits(10) != 10
  {
    assert Digits(1) == [1];
    assert Digits(12) == [2, 1];
    assert Digits(121) == [1, 2, 1];
    assert Digits(10) == [0, 1];
    assert Digits(101) == [1, 0, 1];
  }
}
