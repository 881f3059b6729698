/** Counting the decimal digits of an integer (`countDigit`). */
module NumberCount {
  import opened Common
  import opened DecimalDigits

  /**
   * The digit count of `num`: 1 for zero, otherwise the number of truncating
   * divisions by 10 that bring `|num|` down to 0.
   */
  method CountDigit(num: int) returns (count: nat)
    ensures count >= 1
    ensures num == 0 ==> count == 1
    ensures num != 0 ==> count == |Digits(Abs(num))|
    ensures num != 0 ==> Pow(10, count - 1) <= Abs(num) < Pow(10, count)
  {
    if num == 0 {
      return 1;
    }
    var n: nat := Abs(num);
    count := 0;
    ghost var D := Digits(n);
    while n > 0
      invariant count <= |D|
      invariant Digits(n) == D[count..]
      decreases n
    {
      assert D[count..] == [n % 10] + Digits(n / 10);
      assert D[count + 1..] == D[count..][1..];
      count := count + 1;
      n := n / 10;
    }
    assert count == |D|;
    DigitsBounds(Abs(num));
  }

  /**
   * The documented examples 67256373 (8 digits) and -94343 (5 digits); the
   * third one, 0 with one digit, is the zero case of CountDigit's contract.
   */
  lemma DigitCountExamples()
    ensures |Digits(67256373)| == 8
    ensures |Digits(Abs(-94343))| == 5
  {
    // One digit per step, from the most significant digit down.
    assert |Digits(6)| == 1;
    assert |Digits(67)| == 2;
    assert |Digits(672)| == 3;
    assert |Digits(6725)| == 4;
    assert |Digits(67256)| == 5;
    assert |Digits(672563)| == 6;
    assert |Digits(6725637)| == 7;
    assert |Digits(67256373)| == 8;
    assert |Digits(9)| == 1;
    assert |Digits(94)| == 2;
    assert |Digits(943)| == 3;
    assert |Digits(9434)| == 4;
    assert |Digits(94343)| == 5;
  }
}
