/** Scalar multiplication from right to left, with precomputed multiples of the base point. */
module TableMultiply {
  import opened ModArith
  import opened Limbs
  import opened Bignum
  import opened SignedDigits
  import opened Points = ScalarMultiply

  const TWO252: int := TWO256 / 16

  lemma SixtyThreeDigits()
    ensures Pow(16, 63) == TWO252
  {
    hide Pow;
    SixtyFourDigits();
    NextPower(63);
  }

  /** The precomputed table: cp[i][j] = (2 * j + 1) * 16^i * G. */
  ghost predicate Table(cp: seq<seq<int>>, order: int)
    requires order > 0
  {
    |cp| == 64 && forall i :: 0 <= i < 64 ==> TableRow(cp[i], i, order)
  }

  ghost predicate TableRow(row: seq<int>, i: nat, order: int)
    requires order > 0
  {
    |row| == 8 && forall j :: 0 <= j < 8 ==> row[j] == (2 * j + 1) * Pow(16, i) % order
  }

  /** The five bits after the source's xor and mask: magnitude in the upper three, parity tells the sign change. */
  function Masked(bits: int): (m: int)
    requires 0 <= bits < 32
    ensures 0 <= m < 16
  {
    if bits / 16 == 1 then bits % 16 else 15 - bits % 16
  }

  lemma MaskedMeaning(bits: int)
    requires 0 <= bits < 32
    ensures Masked(bits) / 2 == TableIndex(bits)
    ensures Masked(bits) % 2 == 0 <==> (bits % 2 == 1) != (SignedDigit(bits) > 0)
  {}

  /** a >>= 4 across the limbs. */
  method ShiftFour(a: array<uint32>)
    requires Num(a)
    modifies a
    ensures Num(a) && Val(a) == old(Val(a)) / 16
  {
    hide Value;
    ghost var s := a[..];
    for j := 0 to LIMBS - 1
      invariant Normalized(a[..])
      invariant forall i :: j <= i < LIMBS ==> a[i] == s[i]
      invariant forall i :: 0 <= i < j ==> a[i] == s[i] / 16 + (s[i + 1] % 16) * 0x200_0000
    {
      a[j] := a[j] / 16 + (a[j + 1] % 16) * 0x200_0000;
    }
    a[8] := a[8] / 16;
    ShiftRightAll(s, a[..], 16, 0x200_0000);
  }

  lemma LowBits(a: seq<int>)
    requires |a| == LIMBS && Normalized(a)
    ensures Value(a) % 32 == a[0] % 32
  {
    hide Value;
    ValueHead(a);
    DivAddMultiple(a[0], 0x100_0000 * Value(a[1..]), 32);
  }

  /** The accumulator holding digits 0 to i - 1, with the sign of the last of them on record. */
  ghost predicate Summed(e: int, a: nat, i: nat, order: int)
    requires order > 0
  {
    i >= 1 && e == Signed(SignedDigit(Bits(a, i - 1)) > 0, DigitSum(a, i), 1, order)
  }

  lemma SummedNonzero(e: int, a: nat, i: nat, order: int)
    requires a % 2 == 1 && order > 1 && Summed(e, a, i, order)
    ensures Pow(16, i) < order ==> forall other :: Signed(other, DigitSum(a, i), 1, order) != 0
  {
    if Pow(16, i) >= order {
      return;
    }
    hide Pow, DigitSum, Bits, SignedDigit, Signed;
    PartialSumSign(a, i);
    SmallNonzero(DigitSum(a, i), order);
    OneCoprime(order);
    SignedNonzero(true, DigitSum(a, i), 1, order);
    SignedNonzero(false, DigitSum(a, i), 1, order);
  }

  lemma SignedAdd(positive: bool, c: int, m: int, order: int)
    requires order > 0
    ensures PointAdd(Signed(positive, c, 1, order), m % order, order)
         == Signed(positive, c + (if positive then m else -m), 1, order)
  {
    SumMod(if positive then c * 1 else -(c * 1), m, order);
  }

  lemma SummedStart(a: nat, order: int)
    requires order > 0
    ensures Summed(Magnitude(Bits(a, 0)) * Pow(16, 0) % order, a, 1, order)
  {
    hide Bits;
    NextPower(0);
    var d := SignedDigit(Bits(a, 0));
    assert DigitSum(a, 1) == DigitSum(a, 0) + d * Pow(16, 0) == d;
    DigitMagnitude(Bits(a, 0));
  }

  lemma SummedStep(e: int, a: nat, i: nat, order: int)
    requires a % 2 == 1 && order > 1 && Summed(e, a, i, order)
    ensures var flip := Masked(Bits(a, i)) % 2 == 0;
      var n := if flip then PointNegate(e, order) else e;
      && (Pow(16, i) < order ==> n != 0)
      && Summed(PointAdd(n, Magnitude(Bits(a, i)) * Pow(16, i) % order, order), a, i + 1, order)
  {
    hide Pow, Bits, Signed, SignedDigit, Magnitude, Masked, PointAdd, DigitSum, Quotient, Upper;
    SummedNonzero(e, a, i, order);
    DigitSumStep(a, i);
    MaskedMeaning(Bits(a, i));
    UpperStep(a, i - 1);
    BitsParity(a, i);
    var from, to := SignedDigit(Bits(a, i - 1)) > 0, SignedDigit(Bits(a, i)) > 0;
    SignedNegate(from, to, DigitSum(a, i), 1, order);
    var m := Magnitude(Bits(a, i)) * Pow(16, i);
    SignedAdd(to, DigitSum(a, i), m, order);
    SignedProduct(Bits(a, i), Pow(16, i));
  }

  lemma SignedProduct(bits: int, w: int)
    requires 0 <= bits < 32
    ensures SignedDigit(bits) * w == if SignedDigit(bits) > 0 then Magnitude(bits) * w else -(Magnitude(bits) * w)
  {
    hide Magnitude;
    assert -Magnitude(bits) * w == -(Magnitude(bits) * w);
  }

  lemma DigitSumStep(a: nat, i: nat)
    ensures DigitSum(a, i + 1) == DigitSum(a, i) + SignedDigit(Bits(a, i)) * Pow(16, i)
  {}

  lemma BitsParity(a: nat, i: nat)
    ensures Bits(a, i) % 2 == Quotient(a, i) % 2
  {
    hide Quotient;
    var q := Quotient(a, i);
    DivAddMultiple(q % 32, 16 * (q / 32), 2);
  }

  lemma SummedEnd(e: int, a: nat, k: int, order: int)
    requires Multiplier(a, k, order) && Summed(e, a, 64, order)
    ensures (if SignedDigit(Bits(a, 63)) > 0 then e else PointNegate(e, order)) == k
  {
    hide Pow, DigitSum, Bits, SignedDigit;
    SixtyFourDigits();
    DigitsRepresent(a, k, order);
    SignedNegate(SignedDigit(Bits(a, 63)) > 0, true, DigitSum(a, 64), 1, order);
    DivUnique(k, order, 0, k);
  }

  lemma TableRowEntry(cp: seq<seq<int>>, i: nat, bits: int, order: int)
    requires order > 0 && Table(cp, order) && i < 64 && 0 <= bits < 32
    ensures |cp| == 64 && |cp[i]| == 8
    ensures 0 <= cp[i][TableIndex(bits)] == Magnitude(bits) * Pow(16, i) % order < order
    ensures 16 < order && order % 2 == 1 ==> cp[i][TableIndex(bits)] % order != 0
  {
    assert TableRow(cp[i], i, order);
    if 16 < order && order % 2 == 1 {
      SmallNonzero(Magnitude(bits), order);
      PowerNonzero(Magnitude(bits), i, order);
      CongMod(Magnitude(bits) * Pow(16, i), order);
    }
  }

  lemma {:induction false} PowerNonzero(m: int, i: nat, order: int)
    requires order > 0 && order % 2 == 1 && m % order != 0
    ensures m * Pow(16, i) % order != 0
  {
    if i > 0 {
      PowerNonzero(m, i - 1, order);
      SixteenNonzero(m * Pow(16, i - 1), order);
      assert m * Pow(16, i) == 16 * (m * Pow(16, i - 1));
    }
  }

  /** res = k * G from the table; needs an order above 2^252 for the partial sums to stay finite. */
  method ScalarMultiply(order: array<uint32>, k: array<uint32>, cp: seq<seq<int>>) returns (res: int)
    requires Num(order) && Num(k) && 0 <= Val(k) < Val(order)
    requires Val(order) % 2 == 1 && TWO252 < Val(order) < TWO256
    requires Table(cp, Val(order))
    modifies {}
    ensures res == Val(k)
  {
    hide Value, Pow, Bits, SignedDigit, Magnitude, TableIndex, Masked, Quotient;
    hide PointAdd, PointNegate, Summed, Table;
    ghost var n, kv := Val(order), Val(k);
    var a, nonZero := OddScalar(order, k);
    if !nonZero {
      return 0;
    }
    ghost var av: nat := Val(a);
    var modulus := BnToInt(order);
    QuotientStep(av, 0);
    LowBits(a[..]);
    BitsAre(av, 0);
    var lowbits := Masked(a[0] % 32);
    MaskedMeaning(a[0] % 32);
    TableRowEntry(cp, 0, a[0] % 32, n);
    SummedStart(av, n);
    var jres := new JacobianPoint.FromAffine(cp[0][lowbits / 2], modulus);
    for i := 1 to 64
      invariant Num(a) && Val(a) == Quotient(av, i - 1)
      invariant Val(order) == n
      invariant jres.Valid() && jres.order == n
      invariant Summed(jres.multiple, av, i, n)
    {
      QuotientStep(av, i - 1);
      ShiftFour(a);
      LowBits(a[..]);
      BitsAre(av, i);
      lowbits := Masked(a[0] % 32);
      MaskedMeaning(a[0] % 32);
      TableRowEntry(cp, i, a[0] % 32, n);
      SixtyThreeDigits();
      PowMonotone(16, i, 63);
      SummedStep(jres.multiple, av, i, n);
      jres.Negate(lowbits % 2 == 0);
      jres.Add(cp[i][lowbits / 2]);
    }
    LowBits(a[..]);
    BitsAre(av, 63);
    PositiveBit(a[0] % 32);
    BitFour(a[0]);
    SummedEnd(jres.multiple, av, kv, n);
    jres.Negate(a[0] / 16 % 2 == 0);
    res := jres.multiple;
  }

  lemma BitFour(x: nat)
    ensures x % 32 / 16 == 1 <==> x / 16 % 2 == 1
  {
    var q, r := x / 32, x % 32;
    assert x == (2 * q) * 16 + r;
    DivAddMultiple(r, 2 * q, 16);
    DivAddMultiple(r / 16, q, 2);
  }

  lemma BitsAre(a: nat, i: nat)
    ensures Bits(a, i) == Quotient(a, i) % 32
  {}
}
