/**
 * Decimal digits of a natural number.  The digit routines (count, palindrome,
 * reversal) all take the last digit with `% 10` and drop it with a truncating
 * `/ 10`; this module gives the meaning of those loops: the digit sequence of
 * a number (least significant digit first), the number a digit sequence
 * denotes, and the digit reversal `RevDigits`.
 */
module DecimalDigits {
  import opened Common

  /** Absolute value. */
  function Abs(x: int): (r: nat)
    ensures r == x || r == -x
  {
    if x < 0 then -x else x
  }

  /** The decimal digits of `n`, least significant first.  Zero has none. */
  function Digits(n: nat): (ds: seq<nat>)
    ensures Canonical(ds)
    ensures ds == [] <==> n == 0
  {
    if n == 0 then [] else [n % 10] + Digits(n / 10)
  }

  /** Every entry is a decimal digit and the most significant (last) one is not 0. */
  predicate Canonical(ds: seq<nat>) {
    (forall k :: 0 <= k < |ds| ==> ds[k] < 10) && (ds != [] ==> ds[|ds| - 1] != 0)
  }

  /** The number denoted by a digit sequence, least significant digit first. */
  function Value(ds: seq<nat>): nat {
    if ds == [] then 0 else ds[0] + 10 * Value(ds[1..])
  }

  /** A sequence reversed. */
  function Rev(s: seq<nat>): (r: seq<nat>)
    ensures |r| == |s|
    ensures forall k :: 0 <= k < |s| ==> r[k] == s[|s| - 1 - k]
  {
    if s == [] then [] else [s[|s| - 1]] + Rev(s[..|s| - 1])
  }

  /** The number whose decimal digits are those of `n` in reverse order (trailing zeros of `n` vanish). */
  function RevDigits(n: nat): nat {
    Value(Rev(Digits(n)))
  }

  /** Reading the digits of `n` back gives `n`. */
  lemma {:induction false} ValueOfDigits(n: nat)
    ensures Value(Digits(n)) == n
    decreases n
  {
    if n > 0 {
      ValueOfDigits(n / 10);
      assert Digits(n)[1..] == Digits(n / 10);
    }
  }

  /** A canonical digit sequence is the digit sequence of the number it denotes. */
  lemma {:induction false} DigitsOfValue(ds: seq<nat>)
    requires Canonical(ds)
    ensures Digits(Value(ds)) == ds
  {
    if ds != [] {
      var rest := ds[1..];
      assert Canonical(rest) by {
        if rest != [] { assert rest[|rest| - 1] == ds[|ds| - 1]; }
      }
      DigitsOfValue(rest);
      var v := Value(ds);
      assert v == ds[0] + 10 * Value(rest);
      assert v != 0 by {
        if rest == [] { assert ds[0] == ds[|ds| - 1]; } else { assert Value(rest) != 0; }
      }
      assert v % 10 == ds[0] && v / 10 == Value(rest);
      assert Digits(v) == [ds[0]] + rest;
    }
  }

  /** The digit sequence of `n` has length `c` exactly when `10^(c-1) <= n < 10^c` (for `n > 0`). */
  lemma {:induction false} DigitsBounds(n: nat)
    requires n > 0
    ensures Pow(10, |Digits(n)| - 1) <= n < Pow(10, |Digits(n)|)
    decreases n
  {
    if n >= 10 {
      DigitsBounds(n / 10);
    }
  }

  /** A sequence of decimal digits denotes a number below `10^length`. */
  lemma {:induction false} ValueBelow(ds: seq<nat>)
    requires forall k :: 0 <= k < |ds| ==> ds[k] < 10
    ensures Value(ds) < Pow(10, |ds|)
  {
    if ds != [] {
      ValueBelow(ds[1..]);
    }
  }

  /** A most significant zero does not change the value. */
  lemma {:induction false} ValueDropLastZero(ds: seq<nat>)
    requires ds != [] && ds[|ds| - 1] == 0
    ensures Value(ds) == Value(ds[..|ds| - 1])
  {
    if |ds| > 1 {
      var tail := ds[1..];
      ValueDropLastZero(tail);
      assert ds[..|ds| - 1][1..] == tail[..|tail| - 1];
    }
  }

  /**
   * One step of the reversal loops.  If `num` holds the digits of `D` from
   * position `k` on and `acc` the first `k` digits reversed, then after moving
   * the last digit of `num` onto `acc` the same holds for `k + 1`.
   */
  lemma ReverseStep(D: seq<nat>, k: nat, num: nat, acc: nat)
    requires k <= |D| && num > 0
    requires Digits(num) == D[k..]
    requires acc == Value(Rev(D[..k]))
    ensures k < |D|
    ensures Digits(num / 10) == D[k + 1..]
    ensures acc * 10 + num % 10 == Value(Rev(D[..k + 1]))
  {
    assert D[k..] == [num % 10] + Digits(num / 10);
    assert D[k] == num % 10;
    assert D[k + 1..] == D[k..][1..];
    assert D[..k + 1][..k] == D[..k];
    assert Rev(D[..k + 1]) == [D[k]] + Rev(D[..k]);
  }

  /** When the loop has consumed every digit, the accumulator holds the reversal. */
  lemma ReverseDone(n: nat, k: nat, acc: nat)
    requires k <= |Digits(n)| && Digits(0) == Digits(n)[k..]
    requires acc == Value(Rev(Digits(n)[..k]))
    ensures acc == RevDigits(n)
  {
    assert Digits(n)[..k] == Digits(n);
  }

  /** Reversing the digits of a positive number gives a positive number. */
  lemma RevDigitsPositive(n: nat)
    requires n > 0
    ensures RevDigits(n) > 0
  {
    var D := Digits(n);
    var R := Rev(D);
    assert R[0] == D[|D| - 1] != 0;
    assert Value(R) >= R[0];
  }

  /** Without a trailing zero, the digits of the reversal are the reversed digits. */
  lemma DigitsOfRevDigits(n: nat)
    requires n % 10 != 0
    ensures Digits(RevDigits(n)) == Rev(Digits(n))
  {
    var D := Digits(n);
    assert D[0] == n % 10;
    assert Canonical(Rev(D));
    DigitsOfValue(Rev(D));
  }

  /** A trailing zero becomes a leading zero, so the reversal is smaller than `n`. */
  lemma TrailingZeroShrinks(n: nat)
    requires n != 0 && n % 10 == 0
    ensures RevDigits(n) < n
    ensures Rev(Digits(n)) != Digits(n)
  {
    var D := Digits(n);
    var R := Rev(D);
    assert R[|R| - 1] == D[0] == 0;
    ValueDropLastZero(R);
    ValueBelow(R[..|R| - 1]);
    DigitsBounds(n);
  }

  /**
   * Reversing twice restores a number that does not end in 0: its reversal
   * then has no leading zero to lose.
   */
  lemma RevDigitsTwice(n: nat)
    requires n % 10 != 0 || n == 0
    ensures RevDigits(RevDigits(n)) == n
  {
    var D := Digits(n);
    if n != 0 {
      DigitsOfRevDigits(n);
      assert Rev(Rev(D)) == D;
    }
    ValueOfDigits(n);
  }

  /**
   * A number equals its digit reversal exactly when its digit sequence reads
   * the same both ways.
   */
  lemma PalindromeDigits(n: nat)
    ensures RevDigits(n) == n <==> Rev(Digits(n)) == Digits(n)
  {
    ValueOfDigits(n);
    if n % 10 != 0 {
      DigitsOfRevDigits(n);
    } else if n != 0 {
      TrailingZeroShrinks(n);
    }
  }

  /** Powers of 10 are strictly increasing in the exponent. */
  lemma {:induction false} PowTenIncreasing(i: nat, j: nat)
    requires i < j
    ensures Pow(10, i) < Pow(10, j)
    decreases j
  {
    if i < j - 1 {
      PowTenIncreasing(i, j - 1);
    }
  }

  /** The most significant digit, at its place value, is a lower bound on the value. */
  lemma {:induction false} ValueAtLeastTop(ds: seq<nat>)
    requires ds != []
    ensures Value(ds) >= ds[|ds| - 1] * Pow(10, |ds| - 1)
  {
    if |ds| > 1 {
      ValueAtLeastTop(ds[1..]);
      assert ds[1..][|ds| - 2] == ds[|ds| - 1];
    }
  }

  /**
   * A number with `c` digits whose last digit is `d` reverses to at least
   * `d * 10^(c-1)`: the last digit becomes the leading one.
   */
  lemma RevDigitsAtLeast(n: nat, c: nat)
    requires c >= 1 && Pow(10, c - 1) <= n < Pow(10, c)
    ensures RevDigits(n) >= (n % 10) * Pow(10, c - 1)
  {
    var D := Digits(n);
    DigitsBounds(n);
    if |D| < c { PowTenIncreasing(|D|, c - 1); }
    if |D| > c { PowTenIncreasing(c, |D| - 1); }
    assert D[0] == n % 10;
    ValueAtLeastTop(Rev(D));
  }
}
