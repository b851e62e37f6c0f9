/** Long multiplication, reduction of the 18-limb product and modular exponentiation. */
module Multiplication {
  import opened ModArith
  import opened Limbs
  import opened Bignum

  // ------------------------------------------------- the product, column by column

  /** Limb m of x, or 0 beyond its ends. */
  function At(x: seq<int>, m: int): int {
    if 0 <= m < |x| then x[m] else 0
  }

  /** The part of column i contributed by the first n limbs of k. */
  function Column(k: seq<int>, x: seq<int>, i: int, n: nat): int
    requires n <= |k|
  {
    if n == 0 then 0 else Column(k, x, i, n - 1) + k[n - 1] * At(x, i - (n - 1))
  }

  /** The first m columns, weighted. */
  function Columns(k: seq<int>, x: seq<int>, n: nat, m: nat): int
    requires n <= |k|
  {
    if m == 0 then 0 else Columns(k, x, n, m - 1) + Place(Column(k, x, m - 1, n), m - 1)
  }

  /** The first m limbs of x shifted up by s places, weighted. */
  function Shifted(x: seq<int>, s: nat, m: nat): int {
    if m == 0 then 0 else Shifted(x, s, m - 1) + Place(At(x, m - 1 - s), m - 1)
  }

  lemma {:induction false} ShiftedValue(x: seq<int>, s: nat, m: nat)
    ensures m <= s ==> Shifted(x, s, m) == 0
    ensures s <= m <= s + |x| ==> Shifted(x, s, m) == Weight(s) * Value(x[..m - s])
    ensures s + |x| <= m ==> Shifted(x, s, m) == Weight(s) * Value(x)
  {
    assert x[..0] == [] && x[..|x|] == x;
    if m > 0 {
      ShiftedValue(x, s, m - 1);
      var d := m - 1 - s;
      if 0 <= d < |x| {
        WeightAdd(s, d);
        Digit(x, d);
        ScaledDigit(Weight(s), Weight(d), Weight(m - 1), Value(x[..d]), x[d]);
      }
    }
  }

  lemma {:induction false} ColumnsStep(k: seq<int>, x: seq<int>, n: nat, m: nat)
    requires 0 < n <= |k|
    ensures Columns(k, x, n, m) == Columns(k, x, n - 1, m) + k[n - 1] * Shifted(x, n - 1, m)
  {
    hide Place;
    if m > 0 {
      ColumnsStep(k, x, n, m - 1);
      var d := At(x, m - n);
      PlaceAdd(Column(k, x, m - 1, n - 1), k[n - 1] * d, m - 1);
      ScaledPlace(k[n - 1], d, m - 1, Shifted(x, n - 1, m - 1), Shifted(x, n - 1, m));
    }
  }

  /** The columns of a long multiplication add up to the product. */
  lemma {:induction false} ColumnsValue(k: seq<int>, x: seq<int>, n: nat, m: nat)
    requires n <= |k| && m >= |k| + |x|
    ensures Columns(k, x, n, m) == Value(k[..n]) * Value(x)
  {
    if n == 0 {
      NoColumns(k, x, m);
    } else {
      ColumnsValue(k, x, n - 1, m);
      ColumnsStep(k, x, n, m);
      ShiftedValue(x, n - 1, m);
      Digit(k, n - 1);
      ProductTerm(Value(k[..n - 1]), k[n - 1], Weight(n - 1), Value(x), Value(k[..n]));
    }
  }

  lemma ProductTerm(a: int, k: int, w: int, v: int, a': int)
    requires a' == a + k * w
    ensures a' * v == a * v + k * (w * v)
  {
    var kw := k * w;
    assert kw * v == k * (w * v);
  }

  lemma {:induction false} NoColumns(k: seq<int>, x: seq<int>, m: nat)
    ensures Columns(k, x, 0, m) == 0
  {
    if m > 0 {
      NoColumns(k, x, m - 1);
    }
  }

  /** Columns only see limbs of k at which x has a partner. */
  lemma {:induction false} ColumnRange(k: seq<int>, x: seq<int>, i: int, n: nat)
    requires n <= |k|
    ensures n <= i - |x| + 1 ==> Column(k, x, i, n) == 0
    ensures n > i + 1 >= 0 ==> Column(k, x, i, n) == Column(k, x, i, i + 1)
  {
    if n > 0 {
      ColumnRange(k, x, i, n - 1);
    }
  }

  /** State of the long multiplication when the columns below i are done. */
  ghost predicate Multiplied(k: array<uint32>, x: array<uint32>, res: array<uint32>, i: nat, acc: int)
    requires Num(k) && Num(x) && res.Length == 2 * LIMBS && i <= 2 * LIMBS
    reads k, x, res
  {
    && 0 <= acc < 0x8_0000_0000
    && Normalized(res[..i])
    && Value(res[..i]) + Place(acc, i) == Columns(k[..], x[..], LIMBS, i)
  }

  method MultiplyLowerHalf(k: array<uint32>, x: array<uint32>, res: array<uint32>) returns (acc: uint64)
    requires Num(k) && Num(x) && res.Length == 2 * LIMBS && res != k && res != x
    modifies res
    ensures Multiplied(k, x, res, LIMBS, acc)
  {
    hide Value, Place, Weight;
    ghost var ks, xs := k[..], x[..];
    ValueEmpty();
    PlaceUp(0, 0);
    acc := 0;
    for i := 0 to LIMBS
      invariant Multiplied(k, x, res, i, acc)
    {
      ghost var before, out := acc, res[..i];
      for j := 0 to i + 1
        invariant res[..i] == out
        invariant acc == before + Column(ks, xs, i, j)
        invariant acc <= 0x7_ffff_ffff + j * ((BASE - 1) * (BASE - 1))
      {
        ProductBound(k[j], x[i - j], BASE);
        acc := acc + k[j] as uint64 * x[i - j] as uint64;
      }
      ColumnRange(ks, xs, i, LIMBS);
      ghost var t := acc;
      res[i] := acc % BASE;
      acc := acc / BASE;
      assert res[..i] == out;
      Carry(res, i, t);
      PlaceAdd(before, Column(ks, xs, i, LIMBS), i);
    }
  }

  method MultiplyUpperHalf(k: array<uint32>, x: array<uint32>, res: array<uint32>, low: uint64) returns (acc: uint64)
    requires Num(k) && Num(x) && res.Length == 2 * LIMBS && res != k && res != x
    requires Multiplied(k, x, res, LIMBS, low)
    modifies res
    ensures Multiplied(k, x, res, 2 * LIMBS - 1, acc)
  {
    hide Value, Place, Weight;
    ghost var ks, xs := k[..], x[..];
    ValueEmpty();
    PlaceUp(0, 0);
    acc := low;
    for i := LIMBS to 2 * LIMBS - 1
      invariant Multiplied(k, x, res, i, acc)
    {
      ghost var before, out := acc, res[..i];
      ColumnRange(ks, xs, i, i - LIMBS + 1);
      for j := i - LIMBS + 1 to LIMBS
        invariant res[..i] == out
        invariant acc == before + Column(ks, xs, i, j)
        invariant acc <= 0x7_ffff_ffff + j * ((BASE - 1) * (BASE - 1))
      {
        ProductBound(k[j], x[i - j], BASE);
        acc := acc + k[j] as uint64 * x[i - j] as uint64;
      }
      ghost var t := acc;
      res[i] := acc % BASE;
      acc := acc / BASE;
      assert res[..i] == out;
      Carry(res, i, t);
      PlaceAdd(before, Column(ks, xs, i, LIMBS), i);
    }
  }

  /** res = k * x, as 18 normalized limbs. */
  method MultiplyLong(k: array<uint32>, x: array<uint32>, res: array<uint32>)
    requires Num(k) && Num(x) && res.Length == 2 * LIMBS && res != k && res != x
    modifies res
    ensures Normalized(res[..]) && Value(res[..]) == Val(k) * Val(x)
  {
    hide Value, Place, Weight;
    ghost var ks, xs := k[..], x[..];
    var acc := MultiplyLowerHalf(k, x, res);
    acc := MultiplyUpperHalf(k, x, res, acc);
    ColumnRange(ks, xs, 2 * LIMBS - 1, LIMBS);
    PlaceUp(0, 17);
    ColumnsValue(ks, xs, LIMBS, 2 * LIMBS);
    assert ks[..LIMBS] == ks;
    TopLimb(res[..17], acc, ks, xs);
    res[2 * LIMBS - 1] := acc;
    Digit(res[..], 17);
    assert res[..][..18] == res[..] && res[..][..17] == res[..17];
  }

  /** What is left in the accumulator after 17 columns is itself a limb. */
  lemma TopLimb(low: seq<int>, acc: nat, k: seq<int>, x: seq<int>)
    requires |low| == 17 && Normalized(low)
    requires |k| == |x| == LIMBS && Normalized(k) && Normalized(x)
    requires Value(low) + Place(acc, 17) == Value(k) * Value(x)
    ensures acc < BASE
  {
    hide Value, Place, Weight;
    ValueBound(low);
    ValueBound(k);
    ValueBound(x);
    WeightAdd(9, 9);
    ProductBound(Value(k), Value(x), Weight(9));
    PlaceUp(1, 17);
    PlaceUp(1, 18);
    PlaceBelow(acc, BASE, 17);
  }

  // ----------------------------------------------------- reduction of the product

  const TWO287: int := 0x800000000000000000000000000000000000000000000000000000000000000000000000

  /** When everything above limb d + 9 is zero, ten limbs and the low part are the number. */
  lemma WindowValue(s: seq<int>, d: nat)
    requires |s| == 2 * LIMBS && d <= 8
    requires forall j :: d + 10 <= j < |s| ==> s[j] == 0
    ensures Value(s) == Value(s[..d]) + Weight(d) * Value(s[d..d + 10])
  {
    hide Value, Weight;
    ValueSplit(s, d);
    ValueSplit(s[d..], 10);
    assert s[d..][..10] == s[d..d + 10];
    ValueZeros(s[d..][10..]);
  }

  /** The window is short enough for its quotient by 2^256 to fit 31 bits. */
  lemma WindowBound(s: seq<int>, d: nat)
    requires |s| == 2 * LIMBS && d <= 8 && Normalized(s)
    requires Value(s) < Weight(d) * TWO287
    ensures forall j :: d + 10 <= j < |s| ==> s[j] == 0
    ensures 0 <= Value(s[d..d + 10]) < TWO287
  {
    hide Value, Weight;
    WeightPositive(d);
    WeightAdd(d, 10);
    WideWindow();
    MulMonotone(TWO287, Weight(10), Weight(d));
    HighLimbsZero(s, d + 10);
    WindowValue(s, d);
    ValueBound(s[..d]);
    ValueBound(s[d..d + 10]);
    QuotientBound(Value(s[..d]), Weight(d), Value(s[d..d + 10]), TWO287);
  }

  lemma WideWindow()
    ensures TWO287 <= Weight(10)
  {
    WeightConstants();
  }

  lemma QuotientBound(low: nat, w: int, v: int, k: int)
    requires w > 0 && low + w * v < w * k
    ensures v < k
  {
    if v >= k {
      MulMonotone(k, v, w);
    }
  }

  /** The coefficient read off two limbs is the window divided by 2^256. */
  lemma Coefficient(w: seq<int>)
    requires |w| == 10 && Normalized(w)
    ensures w[8] / 0x100_0000 + w[9] * 0x20 == Value(w) / TWO256
  {
    hide Value;
    var low := w[..8];
    ValueBound(low);
    Digit(w, 8);
    Digit(w, 9);
    assert w[..10] == w;
    TopBits(Value(low), w[8], w[9]);
  }

  lemma TopBits(low: int, a: int, b: int)
    requires 0 <= low < Weight(8) && 0 <= a < BASE && 0 <= b
    ensures (low + Place(a, 8) + Place(b, 9)) / TWO256 == a / 0x100_0000 + b * 0x20
  {
    WeightConstants();
    var q, r := a / 0x100_0000, a % 0x100_0000;
    DivUnique(low + Place(a, 8) + Place(b, 9), TWO256, q + b * 0x20, low + r * Weight(8));
  }

  lemma WindowReduced(v: int, coef: int, prime: int)
    requires 0 <= v < TWO287 && coef == v / TWO256
    requires TWO256 - TWO224 <= prime <= TWO256
    ensures 0 <= coef < 0x8000_0000
    ensures 0 <= v - coef * prime < 2 * prime
  {
    assert v == coef * TWO256 + v % TWO256;
    assert coef * TWO256 - coef * prime == coef * (TWO256 - prime);
    MulMonotone(coef, 0x7fff_ffff, TWO256 - prime);
    MulMonotone(0, coef, TWO256 - prime);
  }

  /** Replacing the window by its reduction keeps the residue and bounds the whole number. */
  lemma WindowReplaced(low: int, w: int, v: int, v': int, coef: int, prime: int, r: int, n: int)
    requires 0 <= low < w && prime > 0
    requires v' == v - coef * prime && 0 <= v' < 2 * prime
    requires r == low + w * v && n == low + w * v'
    ensures 0 <= n < 2 * prime * w
    ensures Cong(n, r, prime)
  {
    MulMonotone(v', 2 * prime - 1, w);
    MulMonotone(0, v', w);
    assert (2 * prime - 1) * w == 2 * prime * w - w;
    var c := w * coef;
    assert w * v' == w * v - c * prime;
    assert n == r + (-c) * prime;
    CongShift(r, -c, prime);
  }

  method MultiplyReduceStep(res: array<uint32>, prime: array<uint32>, d: nat)
    requires res.Length == 2 * LIMBS && prime.Length == LIMBS && res != prime && d < LIMBS
    requires Normalized(res[..]) && Modulus(prime[..])
    requires Value(res[..]) < Weight(d) * TWO287
    modifies res
    ensures Normalized(res[..])
    ensures 0 <= Value(res[..]) < 2 * Val(prime) * Weight(d)
    ensures Cong(Value(res[..]), old(Value(res[..])), Val(prime))
  {
    hide Value, Place, Weight;
    ghost var rs, ps := res[..], prime[..];
    ghost var win := rs[d..d + 10];
    WindowBound(rs, d);
    Coefficient(win);
    WindowReduced(Value(win), Value(win) / TWO256, Value(ps));
    var coef: uint32 := res[d + LIMBS - 1] / 0x100_0000 + res[d + LIMBS] * 0x20;
    var acc: uint64 := 0x8000_0000;
    ValueEmpty();
    for i := 0 to LIMBS
      invariant acc < 0x8_0000_0000
      invariant forall j :: 0 <= j < 2 * LIMBS && (j < d || d + i <= j) ==> res[j] == rs[j]
      invariant Normalized(res[d..d + i])
      invariant Value(res[d..d + i]) + Place(acc, i)
             == Place(0x8000_0000, i) + Value(win[..i]) - coef * Value(ps[..i])
    {
      ghost var before, out := acc, res[d..d + i];
      BorrowBound(prime[i], coef, 0x8000_0000);
      acc := acc + (BASE - 1) * 0x8000_0000 + res[d + i] - prime[i] as uint64 * coef as uint64;
      ghost var t := acc;
      res[d + i] := acc % BASE;
      acc := acc / BASE;
      assert res[d..d + i + 1] == out + [t % BASE];
      CarryStep(out, t);
      Digit(win, i);
      Digit(ps, i);
      ReducePlaces(t, before, 0x8000_0000, win[i], ps[i], coef, i, Value(ps[..i]), Value(ps[..i + 1]));
    }
    res[d + LIMBS] := 0;
    assert ps[..LIMBS] == ps;
    ReduceStepEnd(rs, res[..], ps, d, acc, coef);
  }

  lemma ReduceStepEnd(rs: seq<int>, ns: seq<int>, ps: seq<int>, d: nat, acc: nat, coef: int)
    requires |rs| == |ns| == 2 * LIMBS && d < LIMBS && Normalized(rs) && Modulus(ps)
    requires Value(rs) < Weight(d) * TWO287
    requires forall j :: 0 <= j < |rs| && (j < d || d + 10 <= j) ==> ns[j] == rs[j]
    requires ns[d + 9] == 0 && Normalized(ns[d..d + 9])
    requires coef == Value(rs[d..d + 10]) / TWO256
    requires Value(ns[d..d + 9]) + Place(acc, 9)
          == Place(0x8000_0000, 9) + Value(rs[d..d + 10][..9]) - coef * Value(ps)
    ensures Normalized(ns) && 0 <= Value(ns) < 2 * Value(ps) * Weight(d)
    ensures Cong(Value(ns), Value(rs), Value(ps))
  {
    hide Value, Place, Weight;
    var win, limbs := rs[d..d + 10], ns[d..d + 9];
    WindowBound(rs, d);
    WindowReduced(Value(win), coef, Value(ps));
    ValueBound(limbs);
    Digit(win, 9);
    assert win[..10] == win;
    PlaceAdd(acc, win[9], 9);
    ReduceEnd(Value(limbs), acc + win[9], 0x8000_0000, Value(win), Value(ps), coef);
    ValueLastZero(ns[d..d + 10]);
    assert ns[d..d + 10][..9] == limbs;
    assert ns[..d] == rs[..d];
    WindowValue(rs, d);
    WindowValue(ns, d);
    ValueBound(rs[..d]);
    WindowReplaced(Value(rs[..d]), Weight(d), Value(win), Value(ns[d..d + 10]), coef, Value(ps),
                   Value(rs), Value(ns));
    forall j | 0 <= j < |ns|
      ensures 0 <= ns[j] < BASE
    {
      if d <= j < d + 9 {
        assert ns[j] == limbs[j - d];
      }
    }
  }

  const TWO519: int := 2 * TWO259 * TWO259

  /** Partly reduces res and stores the result in x. */
  method MultiplyReduce(x: array<uint32>, res: array<uint32>, prime: array<uint32>)
    requires x.Length == prime.Length == LIMBS && res.Length == 2 * LIMBS
    requires res != prime && x != prime && x != res
    requires Normalized(res[..]) && Modulus(prime[..]) && Value(res[..]) < TWO519
    modifies x, res
    ensures Num(x) && 0 <= Val(x) < 2 * Val(prime)
    ensures Cong(Val(x), old(Value(res[..])), Val(prime))
  {
    hide Value, Weight;
    ghost var start := Value(res[..]);
    for i := LIMBS downto 0
      invariant Normalized(res[..])
      invariant i == LIMBS ==> Value(res[..]) < TWO519
      invariant i < LIMBS ==> 0 <= Value(res[..]) < 2 * Val(prime) * Weight(i)
      invariant Cong(Value(res[..]), start, Val(prime))
    {
      NextStep(Val(prime), i);
      MultiplyReduceStep(res, prime, i);
    }
    PrimesFit();
    PlaceUp(1, 0);
    HighLimbsZero(res[..], LIMBS);
    for i := 0 to LIMBS
      invariant x[..i] == res[..i]
      invariant Normalized(res[..]) && 0 <= Value(res[..]) < 2 * Val(prime)
      invariant forall j :: LIMBS <= j < 2 * LIMBS ==> res[j] == 0
      invariant Cong(Value(res[..]), start, Val(prime))
    {
      x[i] := res[i];
    }
    ValueSplit(res[..], LIMBS);
    ValueZeros(res[..][LIMBS..]);
    assert x[..] == res[..][..LIMBS];
  }

  /** What a reduction step leaves is small enough for the next one. */
  lemma NextStep(prime: int, i: nat)
    requires i < LIMBS && 0 < prime <= TWO256
    ensures 2 * prime * Weight(i + 1) <= Weight(i) * TWO287
    ensures TWO519 == Weight(8) * TWO287 && Weight(0) == 1
  {
    WeightConstants();
    WeightPositive(i);
    MulMonotone(2 * prime * BASE, TWO287, Weight(i));
    assert 2 * prime * (BASE * Weight(i)) == 2 * prime * BASE * Weight(i);
  }

  /** x = k * x mod prime, partly reduced; k and x may be the same number. */
  method Multiply(k: array<uint32>, x: array<uint32>, prime: array<uint32>)
    requires Num(k) && Num(x) && prime.Length == LIMBS && x != prime && Modulus(prime[..])
    requires Val(k) * Val(x) < TWO519
    modifies x
    ensures Num(x) && 0 <= Val(x) < 2 * Val(prime)
    ensures Cong(Val(x), old(Val(k)) * old(Val(x)), Val(prime))
  {
    var res := new uint32[2 * LIMBS];
    MultiplyLong(k, x, res);
    MultiplyReduce(x, res, prime);
  }

  // ------------------------------------------------------------- exponentiation

  const TWO259: int := 0x80000000000000000000000000000000000000000000000000000000000000000

  lemma ProductFits(a: int, b: int)
    requires 0 <= a < TWO259 && 0 <= b < TWO259
    ensures 0 <= a * b < TWO519
  {
    MulMonotone(a, TWO259, b);
    MulMonotone(b, TWO259, TWO259);
    MulMonotone(0, a, b);
  }

  /** One bit of the exponent, lowest first. */
  lemma ExponentStep(res: int, acc: int, res': int, acc': int, bit: int, rest: nat, target: int, p: int)
    requires p > 0 && 0 <= bit <= 1 && Cong(res * Pow(acc, 2 * rest + bit), target, p)
    requires Cong(acc', acc * acc, p) && Cong(res', if bit == 1 then acc * res else res, p)
    ensures Cong(res' * Pow(acc', rest), target, p)
  {
    hide Cong;
    var base := if bit == 1 then acc * res else res;
    CongPow(acc', acc * acc, rest, p);
    CongMul(res', base, Pow(acc', rest), Pow(acc * acc, rest), p);
    SquarePower(acc, rest);
    if bit == 1 {
      OddPower(res, acc, 2 * rest);
    }
    CongTransitive(res' * Pow(acc', rest), base * Pow(acc * acc, rest), target, p);
  }

  lemma SquarePower(a: int, n: nat)
    ensures Pow(a * a, n) == Pow(a, 2 * n)
  {
    PowMul(a, 2, n);
    assert Pow(a, 2) == a * Pow(a, 1) == a * a;
  }

  lemma OddPower(r: int, a: int, n: nat)
    ensures r * Pow(a, n + 1) == a * r * Pow(a, n)
  {
    var p := Pow(a, n);
    assert r * (a * p) == a * r * p;
  }

  /** The exponent still to be used: the rest of the current limb, and the limbs above it. */
  function Remaining(limb: nat, j: nat, above: nat): int
    requires j <= BITS
  {
    limb + Pow(2, BITS - j) * above
  }

  lemma RemainingStep(limb: nat, j: nat, above: nat)
    requires j < BITS && limb < Pow(2, BITS - j)
    ensures Remaining(limb, j, above) == 2 * Remaining(limb / 2, j + 1, above) + limb % 2
    ensures Remaining(limb / 2, j + 1, above) >= 0
    ensures limb / 2 < Pow(2, BITS - (j + 1))
  {
    var h := Pow(2, BITS - j - 1);
    PowPositive(2, BITS - j - 1);
    assert Pow(2, BITS - j) * above == 2 * (h * above);
    MulMonotone(0, h, above);
  }

  lemma RemainingEnds(limb: nat, above: nat)
    ensures Remaining(limb, 0, above) == limb + BASE * above && Pow(2, BITS) == BASE
    ensures Remaining(0, BITS, above) == above && Pow(2, 0) == 1
    ensures forall j: nat :: j <= BITS ==> Remaining(0, j, 0) == 0
  {
    WeightPow(1);
  }

  /** res = x^e mod prime, partly reduced; res may be x itself. */
  method PowerMod(x: array<uint32>, e: array<uint32>, prime: array<uint32>, res: array<uint32>)
    requires Num(x) && Num(e) && prime.Length == res.Length == LIMBS && Modulus(prime[..])
    requires res != e && res != prime && Val(x) < TWO259
    modifies res
    ensures Num(res) && 0 <= Val(res) < 2 * Val(prime)
    ensures Val(e) >= 0 && Cong(Val(res), Pow(old(Val(x)), Val(e)), Val(prime))
  {
    hide Value, Weight, Pow, Cong, Remaining;
    ghost var es, p := e[..], Val(prime);
    ValueBound(x[..]);
    ValueBound(es);
    ghost var target := Pow(Val(x), Val(e));
    var acc := new uint32[LIMBS];
    Copy(x, acc);
    One(res);
    CongSelf(target, p);
    assert es[0..] == es;
    for i := 0 to LIMBS
      invariant Num(acc) && 0 <= Val(acc) < TWO259
      invariant Num(res) && 0 <= Val(res) < 2 * p
      invariant e[..] == es && Val(prime) == p && Modulus(prime[..])
      invariant Value(es[i..]) >= 0
      invariant Cong(Val(res) * Pow(Val(acc), Value(es[i..])), target, p)
    {
      var limb: uint32 := e[i];
      ghost var above := Value(es[i + 1..]);
      ValueHead(es[i..]);
      assert es[i..][1..] == es[i + 1..];
      ValueBound(es[i + 1..]);
      RemainingEnds(limb, above);
      var j := 0;
      while j < BITS
        invariant 0 <= j <= BITS && limb < Pow(2, BITS - j)
        invariant Num(acc) && 0 <= Val(acc) < TWO259
        invariant Num(res) && 0 <= Val(res) < 2 * p
        invariant e[..] == es && Val(prime) == p && Modulus(prime[..])
        invariant Remaining(limb, j, above) >= 0
        invariant Cong(Val(res) * Pow(Val(acc), Remaining(limb, j, above)), target, p)
      {
        if i == LIMBS - 1 && limb == 0 {
          assert es[LIMBS..] == [];
          ValueEmpty();
          break;
        }
        RemainingStep(limb, j, above);
        ghost var res0, acc0, bit := Val(res), Val(acc), limb % 2;
        ProductFits(acc0, res0);
        ProductFits(acc0, acc0);
        CongSelf(res0, p);
        if limb % 2 == 1 {
          Multiply(acc, res, prime);
        }
        limb := limb / 2;
        Multiply(acc, acc, prime);
        j := j + 1;
        ExponentStep(res0, acc0, Val(res), Val(acc), bit, Remaining(limb, j, above), target, p);
      }
    }
    assert es[LIMBS..] == [];
    ValueEmpty();
    PowZero(Val(acc));
  }
}
