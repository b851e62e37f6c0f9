/**
 * The signed odd-digit expansion behind scalar multiplication: an odd number is written with
 * 64 digits of base 16, all odd, of either sign, plus a leading 2^256.
 */
module SignedDigits {
  import opened ModArith

  /** The odd number among h and h + 1. */
  function MakeOdd(h: int): (r: int)
    ensures r % 2 == 1 && h <= r <= h + 1
  {
    if h % 2 == 1 then h else h + 1
  }

  /** |a[i]|, computed from the five bits a >> (4*i) the way the code does it with masks. */
  function Magnitude(bits: int): (m: int)
    requires 0 <= bits < 32
    ensures 1 <= m <= 15 && m % 2 == 1
  {
    2 * (TableIndex(bits)) + 1
  }

  function TableIndex(bits: int): (j: int)
    requires 0 <= bits < 32
    ensures 0 <= j < 8
  {
    (if bits / 16 == 1 then bits % 16 else 15 - bits % 16) / 2
  }

  /** The digit with its sign: bit 4 set means positive. */
  function SignedDigit(bits: int): (d: int)
    requires 0 <= bits < 32
    ensures d % 2 == 1 && -15 <= d <= 15
  {
    if bits / 16 == 1 then Magnitude(bits) else -Magnitude(bits)
  }

  /** a >> (4*i). */
  function Quotient(a: nat, i: nat): nat {
    PowPositive(16, i);
    DivNonNegative(a, Pow(16, i));
    a / Pow(16, i)
  }

  function Bits(a: nat, i: nat): (b: int)
    ensures 0 <= b < 32
  {
    Quotient(a, i) % 32
  }

  /** What is left of a above digit i, made odd. */
  function Upper(a: nat, i: nat): int {
    MakeOdd(Quotient(a, i))
  }

  /** Digits 0 to i - 1, weighted. */
  function DigitSum(a: nat, i: nat): int {
    if i == 0 then 0 else DigitSum(a, i - 1) + SignedDigit(Bits(a, i - 1)) * Pow(16, i - 1)
  }

  lemma QuotientStep(a: nat, i: nat)
    ensures Quotient(a, i + 1) == Quotient(a, i) / 16
    ensures Quotient(a, 0) == a
  {
    hide Pow;
    PowPositive(16, i);
    PowPositive(16, i + 1);
    NextPower(i);
    DivDiv(a, Pow(16, i), 16);
    DivUnique(a, 1, a, 0);
  }

  lemma NextPower(i: nat)
    ensures Pow(16, i + 1) == Pow(16, i) * 16 && Pow(16, 0) == 1
  {}

  lemma UpperStep(a: nat, i: nat)
    ensures Upper(a, i) == 16 * Upper(a, i + 1) + SignedDigit(Bits(a, i))
    ensures SignedDigit(Bits(a, i)) > 0 <==> Quotient(a, i + 1) % 2 == 1
  {
    hide Quotient, SignedDigit;
    QuotientStep(a, i);
    DigitOf(Quotient(a, i));
  }

  /** The arithmetic of one digit: the borrow of an even quotient is paid back as -16. */
  lemma DigitOf(h: nat)
    ensures MakeOdd(h) == 16 * MakeOdd(h / 16) + SignedDigit(h % 32)
    ensures SignedDigit(h % 32) > 0 <==> h / 16 % 2 == 1
  {
    var q, low := h / 16, h % 16;
    var t, bit := q / 2, q % 2;
    assert h == 32 * t + (16 * bit + low);
    DivUnique(h, 32, t, 16 * bit + low);
    DigitOfBits(16 * bit + low, bit, low);
  }

  lemma DigitOfBits(bits: int, bit: int, low: int)
    requires 0 <= bit <= 1 && 0 <= low < 16 && bits == 16 * bit + low
    ensures bit == 1 ==> SignedDigit(bits) == MakeOdd(low) > 0
    ensures bit == 0 ==> SignedDigit(bits) == MakeOdd(low) - 16 < 0
  {
    DivUnique(bits, 16, bit, low);
  }

  /** The digits sum to the number, up to what is still above them. */
  lemma {:induction false} DigitSumValue(a: nat, i: nat)
    requires a % 2 == 1
    ensures DigitSum(a, i) == a - Pow(16, i) * Upper(a, i)
  {
    hide Upper, SignedDigit, Bits;
    if i > 0 {
      DigitSumValue(a, i - 1);
      UpperStep(a, i - 1);
      NextPower(i - 1);
      Regroup(Pow(16, i - 1), Upper(a, i), SignedDigit(Bits(a, i - 1)));
    } else {
      UpperZero(a);
    }
  }

  lemma UpperZero(a: nat)
    requires a % 2 == 1
    ensures Upper(a, 0) == a
  {
    QuotientStep(a, 0);
  }

  lemma Regroup(p: int, u: int, d: int)
    ensures p * (16 * u + d) == p * 16 * u + d * p
  {}

  /** The sum of i digits is odd, nonzero and has the sign of its last digit. */
  lemma PartialSumSign(a: nat, i: nat)
    requires a % 2 == 1 && i >= 1
    ensures DigitSum(a, i) != 0 && -Pow(16, i) < DigitSum(a, i) < Pow(16, i)
    ensures DigitSum(a, i) > 0 <==> SignedDigit(Bits(a, i - 1)) > 0
  {
    hide Pow, Bits, SignedDigit, DigitSum;
    DigitSumValue(a, i);
    UpperStep(a, i - 1);
    PowPositive(16, i);
    EvenPower(i);
    SignOfRemainder(a, Pow(16, i), Quotient(a, i));
  }

  lemma SignOfRemainder(a: nat, p: int, q: int)
    requires a % 2 == 1 && p > 0 && p % 2 == 0 && q == a / p
    ensures var t := a - p * MakeOdd(q); -p < t < p && t != 0 && (t > 0 <==> q % 2 == 1)
  {
    var r := a % p;
    assert a == p * q + r;
    var h := p / 2;
    assert p * q == 2 * (h * q);
    assert p * (q + 1) == p * q + p;
  }

  lemma EvenPower(i: nat)
    requires i >= 1
    ensures Pow(16, i) % 2 == 0
  {
    var h := Pow(16, i - 1);
    assert Pow(16, i) == 2 * (8 * h);
  }

  /** Above digit 63 only the 2^256 that was added is left. */
  lemma TopDigit(a: nat)
    requires a < 2 * Pow(16, 64)
    ensures Upper(a, 64) == 1
  {
    hide Pow;
    PowPositive(16, 64);
    var p := Pow(16, 64);
    if a < p {
      DivUnique(a, p, 0, a);
    } else {
      DivUnique(a, p, 1, a - p);
    }
  }

  /** The 64 digits of k + 2^256 (minus the order when k is even) represent k. */
  lemma DigitsRepresent(a: nat, k: int, order: int)
    requires a % 2 == 1 && a < 2 * Pow(16, 64) && order > 0
    requires a == k + Pow(16, 64) || a == k + Pow(16, 64) - order
    ensures Cong(DigitSum(a, 64), k, order)
  {
    hide Pow, DigitSum;
    DigitSumValue(a, 64);
    TopDigit(a);
    assert Pow(16, 64) * 1 == Pow(16, 64);
    CongShift(k, 0, order);
    CongShift(k, -1, order);
    assert k + -1 * order == k - order;
  }

  /** The left-to-right partial result: digits i to 63, as a number. */
  function UpperSum(a: nat, i: nat): int
    requires i <= 64
  {
    Upper(a, i) - Pow(16, 64 - i)
  }

  lemma UpperSumStep(a: nat, i: nat)
    requires i < 64
    ensures UpperSum(a, i) == 16 * UpperSum(a, i + 1) + SignedDigit(Bits(a, i))
  {
    UpperStep(a, i);
    assert Pow(16, 64 - i) == 16 * Pow(16, 64 - (i + 1));
  }

  /** Partial results from the left are odd and, except for the last, smaller than the order. */
  lemma UpperSumBound(a: nat, i: nat, k: int, order: int)
    requires 1 <= i < 64 && 0 < k < order && order > 16
    requires a == k + Pow(16, 64) || a == k + Pow(16, 64) - order
    ensures -order < UpperSum(a, i) < order && UpperSum(a, i) % 2 == 1
  {
    hide Pow;
    PowPositive(16, i);
    PowPositive(16, 64 - i);
    PowAdd(16, i, 64 - i);
    EvenPower(64 - i);
    PowMonotone(16, 1, i);
    SixteenIsPow();
    BoundedQuotient(a, Pow(16, i), Pow(16, 64 - i), Quotient(a, i), order);
  }

  lemma BoundedQuotient(a: nat, p: int, t: int, q: int, order: int)
    requires p >= 16 && order > 16 && q == a / p
    requires -order < a - p * t < order
    ensures -order < q - t && q - t + 1 < order
  {
    var d, r, x := a - p * t, a % p, q - t;
    assert p * x == d - r by {
      assert a == p * q + r;
    }
    var y := -x - 1;
    assert p * y == -(p * x) - p;
    if x >= order - 1 {
      MulMonotone(16, p, x);
    } else if x <= -order {
      MulMonotone(16, p, y);
    }
  }

  lemma SixteenIsPow()
    ensures Pow(16, 1) == 16
  {}

  /** An odd order has no element of even order, so doubling never reaches infinity. */
  lemma DoublesNonzero(e: int, order: int)
    requires order > 0 && order % 2 == 1 && e % order != 0
    ensures 2 * e % order != 0
  {
    if 2 * e % order == 0 {
      DivUnique(0, order, 0, 0);
      CancelTwo(e, 0, order);
    }
  }

  lemma SmallNonzero(e: int, order: int)
    requires order > 0 && -order < e < order && e != 0
    ensures e % order != 0
  {
    if e > 0 {
      DivUnique(e, order, 0, e);
    } else {
      DivUnique(e, order, -1, e + order);
    }
  }
}
