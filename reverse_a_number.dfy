/** Reversing the decimal digits of a signed integer, with a signed 32-bit overflow check (`reverse`). */
module ReverseANumber {
  import opened Common
  import opened DecimalDigits

  const INT32_MIN: int := -0x8000_0000
  const INT32_MAX: int := 0x7FFF_FFFF

  predicate InInt32(v: int) {
    INT32_MIN <= v <= INT32_MAX
  }

  /** -1 for negative numbers, 1 otherwise. */
  function Sign(x: int): int {
    if x < 0 then -1 else 1
  }

  /**
   * The specified result: the digits of `|x|` reversed, with the sign of `x`,
   * or 0 when that falls outside the signed 32-bit range.
   */
  function ReverseInt32(x: int): (r: int)
    ensures InInt32(r)
    ensures x > 0 && r != 0 ==> r > 0
    ensures x < 0 && r != 0 ==> r < 0
  {
    var signed := Sign(x) * RevDigits(Abs(x));
    if signed < INT32_MIN || signed > INT32_MAX then 0 else signed
  }

  /** The reversal loop, the sign re-applied, then the 32-bit range check. */
  method Reverse(x: int) returns (r: int)
    ensures r == ReverseInt32(x)
  {
    var sign := if x < 0 then -1 else 1;
    var v: nat := Abs(x);
    var newNum: nat := 0;
    ghost var D := Digits(v);
    ghost var k: nat := 0;
    while v > 0
      invariant k <= |D|
      invariant Digits(v) == D[k..]
      invariant newNum == Value(Rev(D[..k]))
      decreases v
    {
      ReverseStep(D, k, v, newNum);
      var lastDigit := v % 10;
      newNum := newNum * 10 + lastDigit;
      v := v / 10;
      k := k + 1;
    }
    ReverseDone(Abs(x), k, newNum);
    assert sign == Sign(x);
    var signed := newNum * sign;
    assert signed == Sign(x) * RevDigits(Abs(x));
    if signed < INT32_MIN || signed > INT32_MAX {
      return 0;
    }
    return signed;
  }

  /** Without overflow the result is the signed digit reversal, and it keeps the sign of `x`. */
  lemma ReverseKeepsSign(x: int)
    requires InInt32(Sign(x) * RevDigits(Abs(x)))
    ensures ReverseInt32(x) == Sign(x) * RevDigits(Abs(x))
    ensures x > 0 ==> ReverseInt32(x) > 0
    ensures x < 0 ==> ReverseInt32(x) < 0
  {
    if x != 0 {
      RevDigitsPositive(Abs(x));
    }
  }

  /**
   * Reversing twice gives back `x` when `x` is a 32-bit value without a
   * trailing zero and the first reversal does not overflow.
   */
  lemma ReverseTwice(x: int)
    requires InInt32(x)
    requires Abs(x) % 10 != 0 || x == 0
    requires ReverseInt32(x) != 0 || x == 0
    ensures ReverseInt32(ReverseInt32(x)) == x
  {
    var y := ReverseInt32(x);
    RevDigitsTwice(Abs(x));
    if x != 0 {
      RevDigitsPositive(Abs(x));
      assert y == Sign(x) * RevDigits(Abs(x));
      assert Abs(y) == RevDigits(Abs(x));
      assert Sign(y) == Sign(x);
    }
  }

  /** The digit reversals behind the examples below: 123 and 120. */
  lemma RevDigitsExamples()
    ensures RevDigits(123) == 321
    ensures RevDigits(120) == 21
  {
    assert Digits(1) == [1] + Digits(0);
    assert Digits(12) == [2] + Digits(1);
    assert Digits(123) == [3] + Digits(12);
    assert Digits(120) == [0] + Digits(12);
    assert Rev([3, 2, 1]) == [1, 2, 3];
    assert Rev([0, 2, 1]) == [1, 2, 0];
    assert [3][1..] == [] && [2, 3][1..] == [3] && [1, 2, 3][1..] == [2, 3];
    assert [0][1..] == [] && [2, 0][1..] == [0] && [1, 2, 0][1..] == [2, 0];
  }

  /** Examples: the sign is kept and a trailing zero is dropped. */
  lemma ReverseExamples()
    ensures ReverseInt32(123) == 321
    ensures ReverseInt32(-123) == -321
    ensures ReverseInt32(120) == 21
    ensures ReverseInt32(0) == 0
  {
    RevDigitsExamples();
    assert Abs(-123) == 123;
  }

  /** An input whose reversal, 9646324351, exceeds the 32-bit range gives 0. */
  lemma ReverseOverflowExample()
    ensures ReverseInt32(1534236469) == 0
  {
    assert Pow(10, 9) == 1000000000 && Pow(10, 10) == 10000000000;
    RevDigitsAtLeast(1534236469, 10);
  }
}
