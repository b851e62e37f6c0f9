/**
 * Scalar multiplication with signed odd digits, from left to right. A point is the multiple of
 * the base point that it is, modulo the group order; 0 is the point at infinity.
 */
module ScalarMultiply {
  import opened ModArith
  import opened Limbs
  import opened Bignum
  import opened ByteOrder
  import opened SignedDigits

  // ------------------------------------------------------------------ the group

  /** point_add and point_double handle every pair of points, infinity included. */
  function PointAdd(p: int, q: int, order: int): (r: int)
    requires order > 0
    ensures 0 <= r < order
  {
    (p + q) % order
  }

  function PointDouble(p: int, order: int): (r: int)
    requires order > 0
    ensures 0 <= r < order
  {
    2 * p % order
  }

  function PointNegate(p: int, order: int): (r: int)
    requires order > 0
    ensures 0 <= r < order
  {
    -p % order
  }

  /** A point in Jacobian coordinates, updated in place. */
  class JacobianPoint {
    var multiple: int
    const order: int

    ghost predicate Valid()
      reads this
    {
      order > 0 && 0 <= multiple < order
    }

    constructor FromAffine(p: int, order: int)
      requires 0 <= p < order
      ensures Valid() && multiple == p && this.order == order
    {
      multiple := p;
      this.order := order;
    }

    /** point_jacobian_add: its formula has no case for an infinite operand. */
    method Add(p: int)
      requires Valid() && multiple != 0
      requires p % order != 0
      modifies this
      ensures Valid() && multiple == PointAdd(old(multiple), p, order)
    {
      multiple := PointAdd(multiple, p, order);
    }

    method Double()
      requires Valid()
      modifies this
      ensures Valid() && multiple == PointDouble(old(multiple), order)
    {
      multiple := PointDouble(multiple, order);
    }

    /** bn_cnegate on one coordinate. */
    method Negate(cond: bool)
      requires Valid()
      modifies this
      ensures Valid() && multiple == if cond then PointNegate(old(multiple), order) else old(multiple)
    {
      if cond {
        multiple := PointNegate(multiple, order);
      }
    }
  }

  // ---------------------------------------------------------- the odd multiplier

  /** a = k + 2^256, minus the order when k is even: odd, and k modulo the order up to 2^256. */
  method OddScalar(order: array<uint32>, k: array<uint32>) returns (a: array<uint32>, nonZero: bool)
    requires Num(order) && Num(k) && Val(order) % 2 == 1 && Val(k) < Val(order) < TWO256
    ensures fresh(a) && Num(a)
    ensures Val(a) == Val(k) + TWO256 - (if Val(k) % 2 == 0 then Val(order) else 0)
    ensures 0 <= Val(a) < 2 * TWO256 && Val(a) % 2 == 1
    ensures nonZero <==> Val(k) != 0
  {
    hide Value, Place, Weight;
    ghost var ks := k[..];
    ValueParity(ks);
    ValueParity(order[..]);
    var isEven := k[0] % 2 == 0;
    ghost var os := if isEven then order[..] else [0, 0, 0, 0, 0, 0, 0, 0, 0];
    a := new uint32[LIMBS];
    var tmp: uint32 := 1;
    nonZero := false;
    ValueEmpty();
    for j := 0 to LIMBS - 1
      invariant tmp <= 1
      invariant nonZero <==> exists i :: 0 <= i < j && k[i] != 0
      invariant Normalized(a[..j])
      invariant Value(a[..j]) + Place(tmp, j) == Place(1, j) + Value(ks[..j]) - Value(os[..j])
    {
      nonZero := nonZero || k[j] != 0;
      ghost var before := tmp;
      tmp := tmp + (BASE - 1) + k[j] - (if isEven then order[j] else 0);
      ghost var t := tmp;
      a[j] := tmp % BASE;
      tmp := tmp / BASE;
      Carry(a, j, t);
      Digit(ks, j);
      Digit(os, j);
      SubtractPlaces(t, before, ks[j], os[j], j);
    }
    nonZero := nonZero || k[8] != 0;
    TopLimbsSmall(ks);
    TopLimbsSmall(order[..]);
    ghost var low := a[..8];
    OddScalarTop(low, tmp, ks, os);
    if !isEven {
      ValueZeros(os);
    }
    a[8] := tmp + 0xff_ffff + k[8] - (if isEven then order[8] else 0);
    assert a[..] == low + [a[8]];
    if nonZero && Val(k) == 0 {
      ValueIsZero(ks);
    } else if !nonZero {
      ValueZeros(ks);
    }
    ValueBound(ks);
    OddDifference(Value(ks), Val(order));
  }

  lemma OddDifference(k: int, order: int)
    requires order % 2 == 1
    ensures (k + TWO256 - (if k % 2 == 0 then order else 0)) % 2 == 1
  {}

  lemma TopLimbsSmall(x: seq<int>)
    requires |x| == LIMBS && Normalized(x) && Value(x) < TWO256
    ensures x[8] < 0x100_0000
  {
    hide Value, Place;
    Digit(x, 8);
    assert x[..9] == x;
    ValueBound(x[..8]);
    TopLimbFits(x[8], Value(x[..8]));
  }

  lemma OddScalarTop(low: seq<int>, tmp: int, ks: seq<int>, os: seq<int>)
    requires |low| == 8 && |ks| == |os| == LIMBS && 0 <= tmp
    requires Value(low) + Place(tmp, 8) == Place(1, 8) + Value(ks[..8]) - Value(os[..8])
    ensures Value(low + [tmp + 0xff_ffff + ks[8] - os[8]]) == TWO256 + Value(ks) - Value(os)
  {
    hide Value, Place;
    Digit(ks, 8);
    Digit(os, 8);
    assert ks[..9] == ks && os[..9] == os;
    ValueSnoc(low, tmp + 0xff_ffff + ks[8] - os[8]);
    PlaceAdd(tmp, 0xff_ffff, 8);
    PlaceAdd(tmp + 0xff_ffff, ks[8], 8);
    PlaceAdd(tmp + 0xff_ffff + ks[8], os[8], 8);
    PlaceAdd(1, 0xff_ffff, 8);
    TopPlace();
  }

  lemma TopPlace()
    ensures Place(0x100_0000, 8) == TWO256
  {
    WeightConstants();
  }

  // -------------------------------------------------------- five bits at a time

  /** Shifting by whole limbs first, then inside a limb. */
  lemma LimbQuotient(a: seq<int>, q: nat, sh: nat)
    requires q < |a| && Normalized(a) && Value(a) >= 0
    ensures Pow(2, BITS * q + sh) > 0 && Pow(2, sh) > 0
    ensures Value(a) / Pow(2, BITS * q + sh) == (a[q] + BASE * Value(a[q + 1..])) / Pow(2, sh)
    ensures Value(a[q + 1..]) >= 0
  {
    hide Value, Pow, Weight;
    ValueSplit(a, q);
    ValueBound(a[..q]);
    ValueBound(a[q..]);
    ValueBound(a[q + 1..]);
    WeightPow(q);
    PowPositive(2, sh);
    PowPositive(2, BITS * q);
    PowAdd(2, BITS * q, sh);
    var w := Weight(q);
    assert Value(a) == Value(a[q..]) * w + Value(a[..q]);
    DivUnique(Value(a), w, Value(a[q..]), Value(a[..q]));
    DivDiv(Value(a), w, Pow(2, sh));
    ValueHead(a[q..]);
    assert a[q..][1..] == a[q + 1..];
  }

  /** Five bits that lie inside limb q. */
  lemma WindowInLimb(a: seq<int>, q: nat, sh: nat)
    requires q < |a| && Normalized(a) && sh <= 24
    ensures Pow(2, BITS * q + sh) > 0 && Pow(2, sh) > 0
    ensures Value(a) / Pow(2, BITS * q + sh) % 32 == a[q] / Pow(2, sh) % 32
  {
    hide Value, Pow;
    ValueBound(a);
    LimbQuotient(a, q, sh);
    var u, p, r := Value(a[q + 1..]), Pow(2, sh), Pow(2, 24 - sh);
    PowAdd(2, sh, 24 - sh);
    PowSmall();
    assert BASE * u == (32 * (r * u)) * p by {
      assert BASE == 32 * (p * r);
      assert 32 * (p * r) * u == (32 * (r * u)) * p;
    }
    DivAddMultiple(a[q], 32 * (r * u), p);
    DivAddMultiple(a[q] / p, r * u, 32);
  }

  /** Five bits that start c bits below the top of limb q - 1 and reach into limb q. */
  lemma WindowAcross(a: seq<int>, q: nat, c: nat)
    requires 1 <= q < |a| && Normalized(a) && 1 <= c <= 4
    ensures Pow(2, BITS * (q - 1) + (29 - c)) > 0
    ensures Value(a) / Pow(2, BITS * (q - 1) + (29 - c)) % 32
         == (Shl32(a[q], c) + Shr32(a[q - 1], 29 - c)) % 32
  {
    hide Value, Pow;
    ValueBound(a);
    LimbQuotient(a, q - 1, 29 - c);
    ValueHead(a[q..]);
    assert a[q..][1..] == a[q + 1..];
    var p, e := Pow(2, 29 - c), Pow(2, c);
    PowAdd(2, c, 29 - c);
    LimbPow();
    AcrossArithmetic(a[q - 1], a[q], Value(a[q + 1..]), p, e);
  }

  lemma AcrossArithmetic(low: int, mid: int, high: int, p: int, e: int)
    requires p > 0 && e > 0 && p * e == BASE && 0 <= mid
    ensures (low + BASE * (mid + BASE * high)) / p % 32 == (mid * e % TWO32 + low / p) % 32
  {
    var m, he, me := mid + BASE * high, high * e, mid * e;
    assert BASE * m == (e * m) * p;
    DivAddMultiple(low, e * m, p);
    assert e * m == me + BASE * he;
    Modulo32(low / p, me, he);
  }

  lemma Modulo32(low: int, me: int, he: int)
    ensures (low + (me + BASE * he)) % 32 == (me % TWO32 + low) % 32
  {
    DivAddMultiple(low + me, 0x100_0000 * he, 32);
    var wrapped := me / TWO32;
    DivAddMultiple(me % TWO32 + low, 0x800_0000 * wrapped, 32);
  }

  /** The bits of digit i, as the digit expansion names them. */
  lemma BitsOf(a: nat, i: nat)
    ensures Pow(2, 4 * i) > 0 && Bits(a, i) == a / Pow(2, 4 * i) % 32
  {
    PowMul(2, 4, i);
    PowPositive(2, 4 * i);
    assert Pow(2, 4) == 16;
  }

  /** The top digit needs no mask: the multiplier is below 2^257. */
  lemma FirstBits(a: seq<uint32>)
    requires |a| == LIMBS && Normalized(a) && 0 <= Value(a) < 2 * TWO256
    ensures Shr32(a[8], 20) == Bits(Value(a), 63)
  {
    hide Value, Pow, Place;
    WindowInLimb(a, 8, 20);
    BitsOf(Value(a), 63);
    Digit(a, 8);
    assert a[..9] == a;
    ValueBound(a[..8]);
    TopTwice(a[8], Value(a[..8]));
    assert Pow(2, 20) == 0x10_0000 by {
      TwentyBits();
    }
  }

  lemma TwentyBits()
    ensures Pow(2, 20) == 0x10_0000
  {
    assert Pow(2, 10) == 0x400;
    PowAdd(2, 10, 10);
  }

  lemma TopTwice(top: int, low: int)
    requires low >= 0 && low + Place(top, 8) < 2 * TWO256
    ensures top < 0x200_0000
  {
    WeightConstants();
  }

  /** Where the next five bits are, on either side of a limb boundary. */
  lemma NextBits(a: seq<uint32>, q: nat, ashift: nat, i: nat)
    requires |a| == LIMBS && Normalized(a) && Value(a) >= 0
    requires q <= 8 && ashift < BITS && BITS * q + ashift == 4 * (i + 1)
    ensures ashift >= 4 ==> Shr32(a[q], ashift - 4) % 32 == Bits(Value(a), i)
    ensures ashift < 4 ==> q >= 1
    ensures ashift < 4 ==> (Shl32(a[q], 4 - ashift) + Shr32(a[q - 1], ashift + 25)) % 32 == Bits(Value(a), i)
  {
    hide Value, Pow;
    BitsOf(Value(a), i);
    if ashift >= 4 {
      WindowInLimb(a, q, ashift - 4);
    } else {
      WindowAcross(a, q, 4 - ashift);
    }
  }

  // ----------------------------------------------------------- left to right

  /** The odd multiples P, 3P, ..., 15P. */
  method OddMultiples(p: int, order: int) returns (pmult: array<int>)
    requires 0 <= p < order
    ensures fresh(pmult) && pmult.Length == 8
    ensures forall j :: 0 <= j < 8 ==> pmult[j] == (2 * j + 1) * p % order
  {
    pmult := new int[8];
    pmult[7] := PointDouble(p, order);
    pmult[0] := p;
    DivUnique(p, order, 0, p);
    for i := 1 to 8
      invariant forall j :: 0 <= j < i ==> pmult[j] == (2 * j + 1) * p % order
      invariant i < 8 ==> pmult[7] == 2 * p % order
    {
      pmult[i] := pmult[7];
      SumMod((2 * (i - 1) + 1) * p, 2 * p, order);
      assert (2 * (i - 1) + 1) * p + 2 * p == (2 * i + 1) * p;
      pmult[i] := PointAdd(pmult[i - 1], pmult[i], order);
    }
  }

  lemma SumMod(a: int, b: int, m: int)
    requires m > 0
    ensures (a % m + b % m) % m == (a + b) % m
  {
    CongMod(a, m);
    CongMod(b, m);
    CongAdd(a % m, a, b % m, b, m);
  }

  /** c times the point p, or minus that. */
  function Signed(positive: bool, c: int, p: int, order: int): (r: int)
    requires order > 0
    ensures 0 <= r < order
  {
    (if positive then c * p else -(c * p)) % order
  }

  lemma SignedNonzero(positive: bool, c: int, p: int, order: int)
    requires order > 1 && Coprime(p, order) && c % order != 0
    ensures Signed(positive, c, p, order) != 0
  {
    CoprimeProduct(c, p, order);
    NegateNonzero(c * p, order);
  }

  lemma NegateNonzero(e: int, order: int)
    requires order > 0 && e % order != 0
    ensures -e % order != 0
  {
    if -e % order == 0 {
      CongNeg(-e, 0, order);
      DivUnique(0, order, 0, 0);
    }
  }

  /** Changing the sign on record to the sign of the next digit. */
  lemma SignedNegate(from: bool, to: bool, c: int, p: int, order: int)
    requires order > 0
    ensures Signed(to, c, p, order)
         == if from != to then -Signed(from, c, p, order) % order else Signed(from, c, p, order)
  {
    var x := if from then c * p else -(c * p);
    CongMod(x, order);
    CongNeg(x % order, x, order);
  }

  /** Four doublings, the sign change and one addition append a digit. */
  lemma SignedAppend(positive: bool, c: int, mag: int, p: int, order: int)
    requires order > 0
    ensures (16 * Signed(positive, c, p, order) % order + mag * p % order) % order
         == Signed(positive, 16 * c + (if positive then mag else -mag), p, order)
  {
    var x := if positive then c * p else -(c * p);
    CongMod(x, order);
    CongScale(x % order, x, 16, order);
    SumMod(16 * x, mag * p, order);
    assert positive ==> (16 * c + mag) * p == 16 * x + mag * p;
    assert !positive ==> -((16 * c - mag) * p) == 16 * x + mag * p;
  }

  lemma FourDoubles(e: int, order: int)
    requires order > 0
    ensures 2 * (2 * (2 * (2 * e % order) % order) % order) % order == 16 * e % order
  {
    DoubleOfMod(2 * e, order);
    DoubleOfMod(4 * e, order);
    DoubleOfMod(8 * e, order);
  }

  lemma DoubleOfMod(e: int, order: int)
    requires order > 0
    ensures 2 * (e % order) % order == 2 * e % order
  {
    CongMod(e, order);
    CongScale(e % order, e, 2, order);
  }

  /** Signs commute with the scaling by 16. */
  lemma SixteenSigned(positive: bool, other: bool, c: int, p: int, order: int)
    requires order > 0
    ensures 16 * Signed(other, c, p, order) % order
         == if positive != other then -(16 * Signed(positive, c, p, order) % order) % order
            else 16 * Signed(positive, c, p, order) % order
  {
    SignedNegate(positive, other, c, p, order);
    var s := Signed(positive, c, p, order);
    CongMod(-s, order);
    CongScale(-s % order, -s, 16, order);
    CongMod(16 * s, order);
    CongNeg(16 * s % order, 16 * s, order);
    assert -s * 16 == -(16 * s);
  }

  /** The accumulator after the digits from i up, signs on record taken into account. */
  ghost predicate Accumulated(e: int, positive: bool, a: nat, i: nat, p: int, order: int)
    requires order > 0 && i < 64
  {
    && e == Signed(positive, UpperSum(a, i), p, order) != 0
    && positive == (SignedDigit(Bits(a, i)) > 0)
  }

  /** What makes a multiplication well defined: the multiplier was made odd from k. */
  ghost predicate Multiplier(a: nat, k: int, order: int) {
    && order % 2 == 1 && 16 < order < TWO256 && 0 < k < order
    && a % 2 == 1 && a == k + TWO256 - (if k % 2 == 0 then order else 0)
  }

  lemma SixtyFourDigits()
    ensures Pow(16, 64) == TWO256 && Pow(2, 4) == 16
  {
    Pow256();
    PowMul(2, 4, 64);
    assert Pow(2, 4) == 16;
  }

  lemma UpperSumNonzero(a: nat, i: nat, k: int, order: int)
    requires Multiplier(a, k, order) && i < 64
    ensures UpperSum(a, i) % order != 0
  {
    hide Pow, UpperSum;
    SixtyFourDigits();
    if i == 0 {
      UpperSumAll(a);
      SmallNonzero(UpperSum(a, 0), order);
    } else {
      UpperSumBound(a, i, k, order);
      SmallNonzero(UpperSum(a, i), order);
    }
  }

  lemma UpperSumAll(a: nat)
    requires a % 2 == 1
    ensures UpperSum(a, 0) == a - Pow(16, 64)
  {
    UpperZero(a);
  }

  /** The first digit from the left is the whole accumulator. */
  lemma AccumulatedStart(a: nat, k: int, p: int, order: int)
    requires Multiplier(a, k, order) && Coprime(p, order)
    ensures Accumulated(Magnitude(Bits(a, 63)) * p % order, SignedDigit(Bits(a, 63)) > 0, a, 63, p, order)
  {
    hide Pow;
    SixtyFourDigits();
    TopDigit(a);
    UpperSumStep(a, 63);
    NextPower(0);
    var m := Magnitude(Bits(a, 63));
    assert UpperSum(a, 63) == SignedDigit(Bits(a, 63));
    assert -(-m * p) == m * p;
    UpperSumNonzero(a, 63, k, order);
    SignedNonzero(SignedDigit(Bits(a, 63)) > 0, UpperSum(a, 63), p, order);
  }

  /** One more digit; the sum fed to point_jacobian_add is not infinity, and neither is the result. */
  lemma AccumulatedStep(e: int, positive: bool, a: nat, i: nat, k: int, p: int, order: int)
    requires Multiplier(a, k, order) && Coprime(p, order) && i < 63
    requires Accumulated(e, positive, a, i + 1, p, order)
    ensures var next := SignedDigit(Bits(a, i)) > 0;
      var d := PointDouble(PointDouble(PointDouble(PointDouble(e, order), order), order), order);
      var n := if positive != next then PointNegate(d, order) else d;
      && n != 0
      && Accumulated(PointAdd(n, Magnitude(Bits(a, i)) * p % order, order), next, a, i, p, order)
  {
    hide Pow, UpperSum, Bits, Coprime, Signed, SignedDigit, Magnitude;
    var next := SignedDigit(Bits(a, i)) > 0;
    var c, m := UpperSum(a, i + 1), Magnitude(Bits(a, i));
    FourDoubles(e, order);
    SixteenSigned(positive, next, c, p, order);
    SignedAppend(next, c, m, p, order);
    UpperSumStep(a, i);
    DigitMagnitude(Bits(a, i));
    UpperSumNonzero(a, i + 1, k, order);
    UpperSumNonzero(a, i, k, order);
    SignedNonzero(next, UpperSum(a, i), p, order);
    SignedNonzero(next, c, p, order);
    DivUnique(Signed(next, c, p, order), order, 0, Signed(next, c, p, order));
    SixteenNonzero(Signed(next, c, p, order), order);
  }

  lemma DigitMagnitude(bits: int)
    requires 0 <= bits < 32
    ensures SignedDigit(bits) == if SignedDigit(bits) > 0 then Magnitude(bits) else -Magnitude(bits)
  {}

  lemma SixteenNonzero(e: int, order: int)
    requires order > 0 && order % 2 == 1 && e % order != 0
    ensures 16 * e % order != 0
  {
    DoublesNonzero(e, order);
    DoublesNonzero(2 * e, order);
    DoublesNonzero(4 * e, order);
    DoublesNonzero(8 * e, order);
  }

  lemma AccumulatedEnd(e: int, positive: bool, a: nat, k: int, p: int, order: int)
    requires Multiplier(a, k, order) && Accumulated(e, positive, a, 0, p, order)
    ensures (if positive then e else PointNegate(e, order)) == k * p % order
  {
    hide Pow, UpperSum, Signed, SignedDigit, Bits;
    SixtyFourDigits();
    UpperSumAll(a);
    var c := UpperSum(a, 0);
    SignedNegate(positive, true, c, p, order);
    SignedResidue(c, k, p, order);
  }

  lemma SignedResidue(c: int, k: int, p: int, order: int)
    requires order > 0 && (c == k || c == k - order)
    ensures Signed(true, c, p, order) == k * p % order
  {
    if c != k {
      assert c * p == k * p + -p * order;
      CongShift(k * p, -p, order);
    }
  }

  /** The masks of the source pick the table entry from the five bits. */
  lemma TableEntry(pmult: seq<int>, bits: int, p: int, order: int)
    requires |pmult| == 8 && 0 <= bits < 32 && order > 0
    requires forall j :: 0 <= j < 8 ==> pmult[j] == (2 * j + 1) * p % order
    ensures pmult[TableIndex(bits)] == Magnitude(bits) * p % order
  {}

  lemma OddMultipleNonzero(m: int, p: int, order: int)
    requires Coprime(p, order) && order > 16 && 1 <= m <= 15
    ensures m * p % order != 0 && m * p % order % order != 0
  {
    SmallNonzero(m, order);
    CoprimeProduct(m, p, order);
    CongMod(m * p, order);
  }

  /**
   * res = k * p. The accumulator is never the point at infinity when point_jacobian_add sees
   * it; that is the precondition of Add.
   */
  method PointMultiply(order: array<uint32>, k: array<uint32>, p: int) returns (res: int)
    requires Num(order) && Num(k) && 0 <= Val(k) < Val(order)
    requires Val(order) % 2 == 1 && 16 < Val(order) < TWO256
    requires 0 < p < Val(order) && Coprime(p, Val(order))
    ensures res == Val(k) * p % Val(order)
  {
    hide Value, Pow, Coprime, UpperSum, Bits, SignedDigit, Magnitude, TableIndex, Accumulated;
    hide PointAdd, PointDouble, PointNegate;
    ghost var n, kv := Val(order), Val(k);
    var a, nonZero := OddScalar(order, k);
    if !nonZero {
      ZeroMultiple(p, n);
      return 0;
    }
    ghost var av: nat := Val(a);
    var modulus := BnToInt(order);
    var pmult := OddMultiples(p, modulus);
    var q := 8;
    var abits := a[q];
    var ashift := 20;
    var bits := Shr32(abits, ashift);
    FirstBits(a[..]);
    var positive := bits / 16 == 1;
    PositiveBit(bits);
    TableEntry(pmult[..], bits, p, n);
    AccumulatedStart(av, kv, p, n);
    var jres := new JacobianPoint.FromAffine(pmult[TableIndex(bits)], modulus);
    for i := 63 downto 0
      invariant Num(a) && Val(a) == av && Val(order) == n
      invariant jres.Valid() && jres.order == n
      invariant forall j :: 0 <= j < 8 ==> pmult[j] == (2 * j + 1) * p % n
      invariant 0 <= q <= 8 && 0 <= ashift < BITS && BITS * q + ashift == 4 * i && abits == a[q]
      invariant Accumulated(jres.multiple, positive, av, i, p, n)
    {
      ghost var e := jres.multiple;
      AccumulatedStep(e, positive, av, i, kv, p, n);
      jres.Double();
      jres.Double();
      jres.Double();
      jres.Double();
      q, abits, ashift, bits := NextDigit(a, q, abits, ashift, i);
      PositiveBit(bits);
      var next := bits / 16 == 1;
      jres.Negate(positive != next);
      TableEntry(pmult[..], bits, p, n);
      OddMultipleNonzero(Magnitude(bits), p, n);
      jres.Add(pmult[TableIndex(bits)]);
      positive := next;
    }
    AccumulatedEnd(jres.multiple, positive, av, kv, p, n);
    jres.Negate(!positive);
    res := jres.multiple;
  }

  lemma ZeroMultiple(p: int, order: int)
    requires order > 0
    ensures 0 * p % order == 0
  {}

  /** Five bits of a from bit 4 * i on, refilling abits from the next lower limb when needed. */
  method NextDigit(a: array<uint32>, aptr: nat, abits: uint32, ashift: nat, ghost i: nat)
    returns (aptr': nat, abits': uint32, ashift': int, bits: int)
    requires Num(a) && Val(a) >= 0 && aptr <= 8 && ashift < BITS && abits == a[aptr]
    requires BITS * aptr + ashift == 4 * (i + 1)
    ensures aptr' <= 8 && 0 <= ashift' < BITS && abits' == a[aptr']
    ensures BITS * aptr' + ashift' == 4 * i && bits == Bits(Val(a), i)
  {
    hide Value, Pow, Shl32, Shr32, Bits;
    NextBits(a[..], aptr, ashift, i);
    aptr', abits' := aptr, abits;
    ashift' := ashift - 4;
    if ashift' < 0 {
      bits := Shl32(abits', -ashift');
      aptr' := aptr' - 1;
      abits' := a[aptr'];
      ashift' := ashift' + BITS;
      bits := bits + Shr32(abits', ashift');
    } else {
      bits := Shr32(abits', ashift');
    }
    bits := bits % 32;
  }

  lemma PositiveBit(bits: int)
    requires 0 <= bits < 32
    ensures SignedDigit(bits) > 0 <==> bits / 16 == 1
  {}

  /** The number in a bignum, for the arithmetic of points. */
  method BnToInt(x: array<uint32>) returns (v: int)
    requires Num(x)
    ensures v == Val(x)
  {
    v := Value(x[..]);
  }
}
