/** Modular inversion on limbs: fixed iteration count, registers picked by masks. */
module Inversion {
  import opened ModArith
  import opened Limbs
  import opened Bignum
  import opened AlmostInverse

  // -------------------------------------------------------- inverses modulo 2^n

  /** Arithmetic of 32-bit words. */
  function Mul32(a: uint32, b: uint32): uint32 {
    (a as int * b as int) % TWO32
  }

  function Add32(a: uint32, b: uint32): uint32 {
    (a as int + b as int) % TWO32
  }

  function Sub32(a: uint32, b: uint32): uint32 {
    (a as int - b as int) % TWO32
  }

  lemma ModOfMod(x: int, m: int, k: int)
    requires m > 0 && k > 0
    ensures m * k > 0 && Cong(x % (m * k), x, m)
  {
    MulMonotone(1, k, m);
    var q := x / (m * k);
    var qk := q * k;
    assert q * (m * k) == qk * m;
    assert x == x % (m * k) + qk * m;
    CongShift(x % (m * k), qk, m);
  }

  lemma PowSplit(j: nat, n: nat)
    requires j <= n
    ensures Pow(2, n) == Pow(2, j) * Pow(2, n - j) && Pow(2, j) > 0 && Pow(2, n - j) > 0
  {
    PowAdd(2, j, n - j);
    PowPositive(2, j);
    PowPositive(2, n - j);
  }

  lemma WordPow()
    ensures Pow(2, 32) == TWO32
  {
    assert Pow(2, 8) == 0x100;
    PowAdd(2, 8, 8);
    PowAdd(2, 16, 16);
  }

  /** Reducing to 32 bits before masking changes nothing modulo 2^n. */
  lemma WrapThenMask(x: int, n: nat)
    requires n <= 32
    ensures Pow(2, n) > 0 && Cong(x % TWO32 % Pow(2, n), x, Pow(2, n)) && Cong(x % TWO32, x, Pow(2, n))
  {
    hide Pow, Cong;
    WordPow();
    PowSplit(n, 32);
    ModOfMod(x, Pow(2, n), Pow(2, 32 - n));
    CongMod(x % TWO32, Pow(2, n));
    CongTransitive(x % TWO32 % Pow(2, n), x % TWO32, x, Pow(2, n));
  }

  lemma DividesProduct(d: int, k: int)
    requires d > 0
    ensures Divides(d, d * k)
  {
    DivAddMultiple(0, k, d);
  }

  lemma SquareFactor(f: int, p: int, a: int, q: int, c: int)
    requires f == p * a && p * p == q * c
    ensures f * f == q * (c * (a * a))
  {
    assert f * f == (p * p) * (a * a);
  }

  /** Squaring doubles the power of two in f, up to 2^n. */
  lemma SquaredDivisibility(f: int, g: int, i: nat, n: nat)
    requires i <= n && Pow(2, n) > 0 && Pow(2, i) > 0
    requires Divides(Pow(2, i), f) && Cong(g, f * f, Pow(2, n))
    ensures var j := if 2 * i < n then 2 * i else n; Pow(2, j) > 0 && Divides(Pow(2, j), g)
  {
    var j := if 2 * i < n then 2 * i else n;
    var p, q := Pow(2, i), Pow(2, j);
    var a := f / p;
    assert f == p * a;
    hide Pow, Cong, Divides;
    PowSplit(j, n);
    PowSplit(j, 2 * i);
    PowSplit(i, 2 * i);
    SquareFactor(f, p, a, q, Pow(2, 2 * i - j));
    DividesProduct(q, Pow(2, 2 * i - j) * (a * a));
    DividesProduct(q, Pow(2, n - j));
    var t := CongDiff(g, f * f, Pow(2, n));
    DividesCombination(q, f * f, Pow(2, n), 1, t);
    assert f * f * 1 + Pow(2, n) * t == g;
  }

  /** acc is an inverse of a up to the square of f. */
  ghost predicate InverseUpTo(acc: int, a: int, f: int, m: int)
    requires m > 0
  {
    Cong(acc * a, 1 - f * f, m)
  }

  /** One round of the product formula: (1 - f^2)(1 + f^2) = 1 - f^4. */
  lemma NewtonStep(acc: int, a: int, f: int, f': int, acc': int, m: int)
    requires m > 0 && InverseUpTo(acc, a, f, m)
    requires Cong(f', f * f, m) && Cong(acc', acc * (1 + f'), m)
    ensures InverseUpTo(acc', a, f', m)
  {
    hide Cong;
    CongScale(acc', acc * (1 + f'), a, m);
    CongScale(acc * a, 1 - f * f, 1 + f', m);
    assert acc * (1 + f') * a == acc * a * (1 + f');
    CongTransitive(acc' * a, acc * a * (1 + f'), (1 - f * f) * (1 + f'), m);
    CongSelf(1, m);
    CongNeg(f', f * f, m);
    CongAdd(1, 1, -f', -(f * f), m);
    CongScale(1 - f', 1 - f * f, 1 + f', m);
    CongSymmetric((1 - f') * (1 + f'), (1 - f * f) * (1 + f'), m);
    assert (1 - f') * (1 + f') == 1 - f' * f';
    CongTransitive(acc' * a, (1 - f * f) * (1 + f'), 1 - f' * f', m);
  }

  lemma NewtonStart(a: uint32, n: nat)
    requires n <= 32
    ensures Pow(2, n) > 0 && InverseUpTo(Sub32(2, a), a, a - 1, Pow(2, n))
  {
    WrapThenMask(2 - a, n);
    CongScale((2 - a) % TWO32, 2 - a, a, Pow(2, n));
    assert (2 - a) * a == 1 - (a - 1) * (a - 1);
  }

  lemma NewtonEnd(acc: int, a: int, f: int, m: int)
    requires m > 0 && Divides(m, f) && InverseUpTo(acc, a, f, m)
    ensures Cong(acc * a, 1, m)
  {
    CongScale(f, 0, f, m);
    CongSelf(1, m);
    CongNeg(f * f, 0, m);
    CongAdd(1, 1, -(f * f), 0, m);
  }

  /** What one iteration computes, free of the 32-bit wrap-around. */
  lemma MaskedRound(acc: uint32, f: uint32, n: nat)
    requires n <= 32
    ensures Pow(2, n) > 0
    ensures 0 <= Mul32(f, f) % Pow(2, n) < TWO32
    ensures 0 <= Mul32(acc, Add32(1, f)) % Pow(2, n) < TWO32
    ensures Cong(Mul32(f, f) % Pow(2, n), f * f, Pow(2, n))
    ensures Cong(Mul32(acc, Add32(1, f)) % Pow(2, n), acc * (1 + f), Pow(2, n))
  {
    hide Cong, Pow;
    var g, m := Add32(1, f), Pow(2, n);
    PowSplit(n, n);
    ModLe(Mul32(f, f), m);
    ModLe(Mul32(acc, g), m);
    WrapThenMask(f * f, n);
    WrapThenMask(1 + f, n);
    WrapThenMask(acc * g, n);
    CongScale(g, 1 + f, acc, m);
    assert g * acc == acc * g && (1 + f) * acc == acc * (1 + f);
    CongTransitive(acc * g % TWO32 % m, acc * g, acc * (1 + f), m);
  }

  /** The i low bits that are right become 2 * i. */
  lemma Round(a: uint32, acc: uint32, f: uint32, i: nat, n: nat)
    requires 1 <= i < n <= 32 && Pow(2, n) > 0 && Pow(2, i) > 0
    requires InverseUpTo(acc, a, f, Pow(2, n)) && Divides(Pow(2, i), f)
    ensures var m := Pow(2, n);
      && 0 <= Mul32(f, f) % m < TWO32
      && var f' := Mul32(f, f) % m;
      && 0 <= Mul32(acc, Add32(1, f')) % m < TWO32 && Mul32(acc, Add32(1, f')) % m < m
      && InverseUpTo(Mul32(acc, Add32(1, f')) % m, a, f', m)
      && var j := if 2 * i < n then 2 * i else n; Pow(2, j) > 0 && Divides(Pow(2, j), f')
  {
    hide Cong, Pow, Divides, Mul32, Add32, InverseUpTo;
    var m := Pow(2, n);
    MaskedRound(acc, f, n);
    var f' := Mul32(f, f) % m;
    SquaredDivisibility(f, f', i, n);
    MaskedRound(acc, f', n);
    ModLe(Mul32(acc, Add32(1, f')), m);
    NewtonStep(acc, a, f, f', Mul32(acc, Add32(1, f')) % m, m);
  }

  /** 1/a mod 2^n for odd a; reduced below 2^n except for n == 1, where the loop never runs. */
  method InverseModPowerTwo(a: uint32, n: uint32) returns (acc: uint32)
    requires a % 2 == 1 && 1 <= n <= 32
    ensures Pow(2, n) > 0 && Cong(acc * a, 1, Pow(2, n))
    ensures n > 1 ==> acc < Pow(2, n)
  {
    acc := Sub32(2, a);
    var f: uint32 := a - 1;
    var modulus := Pow(2, n);
    NewtonStart(a, n);
    assert Pow(2, 1) == 2 && Divides(2, f);
    hide Cong, Pow, Divides, Mul32, Add32, Sub32, InverseUpTo;
    var i: uint32 := 1;
    while i < n
      invariant 1 <= i <= 64
      invariant InverseUpTo(acc, a, f, modulus)
      invariant var j := if i < n then i else n; Pow(2, j) > 0 && Divides(Pow(2, j), f)
      invariant i > 1 ==> acc < modulus
    {
      Round(a, acc, f, i, n);
      f := Mul32(f, f) % modulus;
      acc := Mul32(acc, Add32(1, f)) % modulus;
      i := 2 * i;
    }
    NewtonEnd(acc, a, f, modulus);
  }

  // --------------------------------------------------------- division by 2^29

  /** m is chosen so that x + m * prime is a multiple of the limb base. */
  lemma MontgomeryDigit(x0: int, p0: int, inv: int, m: int)
    requires Cong(inv * p0, 1, BASE) && 0 <= inv < BASE && 0 <= x0
    requires x0 < TWO32 && m == Mul32(x0, BASE - inv) % BASE
    ensures 0 <= m < BASE && (x0 + m * p0) % BASE == 0
  {
    hide Cong;
    ModOfMod(x0 * (BASE - inv), BASE, 8);
    assert BASE * 8 == TWO32;
    CongMod(x0 * (BASE - inv) % TWO32, BASE);
    assert x0 * (BASE - inv) == -(x0 * inv) + x0 * BASE;
    CongShift(-(x0 * inv), x0, BASE);
    CongTransitive(m, x0 * (BASE - inv) % TWO32, x0 * (BASE - inv), BASE);
    CongTransitive(m, x0 * (BASE - inv), -(x0 * inv), BASE);
    CongScale(m, -(x0 * inv), p0, BASE);
    CongScale(inv * p0, 1, -x0, BASE);
    assert -(x0 * inv) * p0 == inv * p0 * -x0;
    CongTransitive(m * p0, inv * p0 * -x0, -x0, BASE);
    CongSelf(x0, BASE);
    CongAdd(x0, x0, m * p0, -x0, BASE);
    CongZero(x0 + m * p0, BASE);
  }

  lemma DividePlaces(t: int, acc: int, x: int, p: int, m: int, i: nat, vp: int, vp': int)
    requires t == acc + x + m * p && vp' == vp + Place(p, i + 1)
    ensures BASE * Place(t, i) == BASE * Place(acc, i) + Place(x, i + 1) + m * vp' - m * vp
  {
    AddPlaces(t, acc, x, m * p, i);
    assert BASE * Place(t, i) == Place(t, i + 1);
    AddPlaces(t, acc, x, m * p, i + 1);
    assert m * p * Weight(i + 1) == m * Place(p, i + 1);
    assert m * vp' == m * vp + m * Place(p, i + 1);
  }

  /** x = x / 2^29 mod prime: exact division of x + m * prime, for the digit m. */
  method DivideBase(x: array<uint32>, prime: array<uint32>)
    requires Num(x) && Num(prime) && x != prime && Val(prime) > 0 && Val(prime) % 2 == 1
    modifies x
    ensures Num(x) && Cong(BASE * Val(x), old(Val(x)), Val(prime))
    ensures old(Val(x)) < Val(prime) ==> 0 <= Val(x) < Val(prime)
    ensures old(Val(x)) < 2 * Val(prime) ==> 0 <= Val(x) < 2 * Val(prime)
  {
    hide Value, Place, Weight, Pow, Cong, Mul32;
    ghost var xs, ps := x[..], prime[..];
    ValueParity(ps);
    LimbPow();
    var inv := InverseModPowerTwo(prime[0], BITS);
    var m: uint32 := Mul32(x[0], BASE - inv) % BASE;
    MontgomeryDigit(x[0], prime[0], inv, m);
    ProductBound(m, prime[0], BASE);
    var acc: uint64 := x[0] + m as uint64 * prime[0] as uint64;
    FirstDigit(xs);
    FirstDigit(ps);
    ValueEmpty();
    PlaceUp(acc / BASE, 0);
    acc := acc / BASE;
    for i := 1 to LIMBS
      invariant acc <= BASE
      invariant forall j :: i <= j < LIMBS ==> x[j] == xs[j]
      invariant Normalized(x[..i - 1])
      invariant BASE * (Value(x[..i - 1]) + Place(acc, i - 1)) == Value(xs[..i]) + m * Value(ps[..i])
    {
      ghost var before := acc;
      ProductBound(m, prime[i], BASE);
      acc := acc + x[i] + m as uint64 * prime[i] as uint64;
      ghost var t := acc;
      x[i - 1] := acc % BASE;
      acc := acc / BASE;
      Carry(x, i - 1, t);
      Digit(xs, i);
      Digit(ps, i);
      DividePlaces(t, before, xs[i], ps[i], m, i - 1, Value(ps[..i]), Value(ps[..i + 1]));
    }
    assert xs[..LIMBS] == xs && ps[..LIMBS] == ps;
    ghost var low := x[..8];
    DivideEnd(low, acc, xs, ps, m);
    x[LIMBS - 1] := acc;
    assert x[..] == low + [acc];
    CongShift(Value(xs), m, Value(ps));
  }

  /** The quotient needs no tenth limb, and division keeps full and partial reduction. */
  lemma DivideEnd(low: seq<int>, acc: nat, xs: seq<int>, ps: seq<int>, m: int)
    requires |low| == 8 && Normalized(low) && 0 <= m < BASE
    requires |xs| == |ps| == LIMBS && Normalized(xs) && Normalized(ps) && Value(ps) > 0
    requires BASE * (Value(low) + Place(acc, 8)) == Value(xs) + m * Value(ps)
    ensures acc < BASE && BASE * Value(low + [acc]) == Value(xs) + m * Value(ps)
    ensures 0 <= Value(low + [acc])
    ensures Value(xs) < Value(ps) ==> Value(low + [acc]) < Value(ps)
    ensures Value(xs) < 2 * Value(ps) ==> Value(low + [acc]) < 2 * Value(ps)
  {
    hide Value, Place, Weight;
    ValueBound(low);
    ValueBound(xs);
    ValueBound(ps);
    ValueSnoc(low, acc);
    MulMonotone(m, BASE - 1, Value(ps));
    MulMonotone(0, m, Value(ps));
    PlaceUp(1, 9);
    PlaceUp(1, 8);
    PlaceBelow(acc, BASE, 8);
  }

  // ------------------------------------------------------------- the inversion itself

  ghost predicate Distinct(u: array<uint32>, v: array<uint32>, r: array<uint32>, s: array<uint32>,
                           zero: array<uint32>) {
    && u != v && u != r && u != s && u != zero
    && v != r && v != s && v != zero
    && r != s && r != zero && s != zero
  }

  /** The configuration that the registers stand for. */
  ghost function Config(u: array<uint32>, v: array<uint32>, r: array<uint32>, s: array<uint32>, k: nat, finished: bool)
    : State
    reads u, v, r, s
  {
    State(Val(u), Val(v), Val(r), Val(s), k, finished)
  }

  lemma SmallDifference(a: int, b: int, w: int)
    requires 0 <= b <= a < w
    ensures (a - b) % w == a - b
  {
    DivUnique(a - b, w, 0, a - b);
  }

  /** One iteration: the same four instructions, on registers selected by b1 to b4. */
  method InverseStep(u: array<uint32>, v: array<uint32>, r: array<uint32>, s: array<uint32>, zero: array<uint32>,
                     k: nat, finished: bool) returns (k': nat, finished': bool)
    requires Distinct(u, v, r, s, zero)
    requires Num(u) && Num(v) && Num(r) && Num(s) && Num(zero) && Val(zero) == 0
    requires !finished ==> Val(r) + Val(s) < Weight(LIMBS)
    modifies u, v, r, s
    ensures Num(u) && Num(v) && Num(r) && Num(s) && Weight(LIMBS) > 0
    ensures Config(u, v, r, s, k', finished') == Step(old(Config(u, v, r, s, k, finished)), Weight(LIMBS))
  {
    hide Value, Weight;
    ValueBound(u[..]);
    ValueBound(v[..]);
    ValueBound(s[..]);
    var one := IsOne(v);
    finished' := finished || one;
    var uEven := IsEven(u);
    var vEven := IsEven(v);
    var vLess := IsLess(v, u);
    var b1 := !finished' && uEven;
    var b2 := !finished' && !b1 && vEven;
    var b3 := !finished' && !b1 && !b2 && vLess;
    var b4 := !finished' && !b1 && !b2 && !b3;

    var minuend := if b3 then u else v;
    var subtrahend := if b3 || b4 then (if b3 then v else u) else zero;
    SmallDifference(Val(minuend), Val(subtrahend), Weight(LIMBS));
    Subtract(minuend, subtrahend, minuend);
    Add(if b3 then r else s, if b3 || b4 then (if b3 then s else r) else zero);
    Rshift(if b1 || b3 then u else v);
    Lshift(if b1 || b3 then s else r);
    k' := if finished' then k else k + 1;
  }

  /** The largest number of divisions by base taken so far, out of n wanted. */
  function Taken(i: nat, n: nat): nat {
    if i < n then i else n
  }

  /** s divided by a power of base, modulo prime, is still fully reduced. */
  ghost predicate Divided(y: int, base: int, taken: nat, s: int, prime: int)
    requires prime > 0
  {
    0 <= y < prime && Cong(Pow(base, taken) * y, s, prime)
  }

  lemma DividedStart(s: int, base: int, prime: int)
    requires 0 <= s < prime
    ensures Divided(s, base, 0, s, prime)
  {}

  lemma DividedStep(y: int, y': int, base: int, taken: nat, s: int, prime: int)
    requires prime > 0 && Divided(y, base, taken, s, prime)
    requires 0 <= y' < prime && Cong(base * y', y, prime)
    ensures Divided(y', base, taken + 1, s, prime)
  {
    hide Cong;
    var p := Pow(base, taken);
    CongScale(base * y', y, p, prime);
    assert base * y' * p == Pow(base, taken + 1) * y' && y * p == p * y;
    CongTransitive(Pow(base, taken + 1) * y', p * y, s, prime);
  }

  /** k divisions by two, taken as k / 29 whole limbs and k % 29 single bits. */
  lemma DividedTwice(s: int, y: int, z: int, k: nat, prime: int)
    requires prime > 0 && Divided(y, BASE, k / BITS, s, prime) && Divided(z, 2, k % BITS, y, prime)
    ensures Cong(Pow(2, k) * z, s, prime)
  {
    hide Cong, Pow;
    var a, b := Pow(BASE, k / BITS), Pow(2, k % BITS);
    LimbPow();
    PowMul(2, BITS, k / BITS);
    assert k == BITS * (k / BITS) + k % BITS;
    PowAdd(2, BITS * (k / BITS), k % BITS);
    CongScale(b * z, y, a, prime);
    assert b * z * a == Pow(2, k) * z && y * a == a * y;
    CongTransitive(Pow(2, k) * z, a * y, s, prime);
  }

  /** s = s / 2^(29 * (k / 29)): 18 divisions, of which the first k / 29 are kept. */
  method DivideByLimbs(s: array<uint32>, r: array<uint32>, prime: array<uint32>, k: nat)
    requires Num(s) && r.Length == LIMBS && Num(prime) && s != r && s != prime && r != prime
    requires Val(prime) % 2 == 1 && 0 <= Val(s) < Val(prime) && k <= 522
    modifies s, r
    ensures Num(s) && 0 <= Val(s) < Val(prime) && Divided(Val(s), BASE, k / BITS, old(Val(s)), Val(prime))
  {
    hide Value, Pow, Cong, Divided;
    ghost var s0, p := Val(s), Val(prime);
    DividedStart(s0, BASE, p);
    for i := 0 to 2 * LIMBS
      invariant Num(s) && Num(prime) && Val(prime) == p && 0 <= Val(s) < p
      invariant Divided(Val(s), BASE, Taken(i, k / BITS), s0, p)
    {
      ghost var y := Val(s);
      Copy(s, r);
      DivideBase(r, prime);
      if i < k / BITS {
        DividedStep(y, Val(r), BASE, i, s0, p);
      }
      Cmov(s, i < k / BITS, r, s);
    }
  }

  lemma HalvedMod(y: int, y': int, prime: int)
    requires 0 <= y < prime && 2 * y' == y + if y % 2 == 1 then prime else 0
    ensures 0 <= y' < prime && Cong(2 * y', y, prime)
  {
    CongShift(y, if y % 2 == 1 then 1 else 0, prime);
  }

  /** s = s / 2^(k % 29), one bit at a time. */
  method DivideByBits(s: array<uint32>, r: array<uint32>, prime: array<uint32>, k: nat)
    requires Num(s) && r.Length == LIMBS && Num(prime) && s != r && s != prime && r != prime
    requires Val(prime) % 2 == 1 && Val(prime) <= TWO256 && 0 <= Val(s) < Val(prime)
    modifies s, r
    ensures Num(s) && 0 <= Val(s) < Val(prime) && Divided(Val(s), 2, k % BITS, old(Val(s)), Val(prime))
  {
    hide Value, Pow, Cong, Divided, Weight;
    ghost var s0, p := Val(s), Val(prime);
    DividedStart(s0, 2, p);
    PrimesFit();
    for i := 0 to BITS
      invariant Num(s) && Num(prime) && Val(prime) == p && 0 <= Val(s) < p
      invariant Divided(Val(s), 2, Taken(i, k % BITS), s0, p)
    {
      ghost var y := Val(s);
      Copy(s, r);
      MultHalf(r, prime);
      HalvedMod(y, Val(r), p);
      if i < k % BITS {
        DividedStep(y, Val(r), 2, i, s0, p);
      }
      Cmov(s, i < k % BITS, r, s);
    }
  }

  lemma CoprimeResidue(a: int, b: int, m: int)
    requires m > 0 && Coprime(a, m) && Cong(b, a, m)
    ensures Coprime(b, m)
  {
    var q := CongDiff(b, a, m);
    assert a == b * 1 + m * -q;
    forall d: int | d > 1 && Divides(d, b)
      ensures !Divides(d, m)
    {
      if Divides(d, m) {
        DividesCombination(d, b, m, 1, -q);
      }
    }
  }

  /** 522 iterations from u = prime, v = x: afterwards s * x = 2^k for an invertible x. */
  method InverseLoop(u: array<uint32>, v: array<uint32>, r: array<uint32>, s: array<uint32>, zero: array<uint32>,
                     ghost x: int, ghost prime: int) returns (k: nat)
    requires Distinct(u, v, r, s, zero)
    requires Num(u) && Num(v) && Num(r) && Num(s) && Num(zero) && Val(zero) == 0
    requires 1 < prime <= TWO256 && prime % 2 == 1 && 0 <= x < prime
    requires x == 0 || Coprime(x, prime)
    requires Config(u, v, r, s, 0, false) == Start(x, prime)
    modifies u, v, r, s
    ensures Num(s) && 0 <= Val(s) < prime && k <= 522
    ensures x > 0 ==> Cong(x * Val(s), Pow(2, k), prime)
  {
    hide Value, Weight, Pow, Cong, Coprime, Progress, Step;
    Pow256();
    PrimesFit();
    k := 0;
    var finished := false;
    ghost var w, c, d := Weight(LIMBS), 0, 1;
    StartProgress(x, prime);
    for i := 0 to 2 * LIMBS * BITS
      invariant Num(u) && Num(v) && Num(r) && Num(s) && Num(zero) && Val(zero) == 0
      invariant Progress(Config(u, v, r, s, k, finished), i, x, prime, c, d)
    {
      ghost var st := Config(u, v, r, s, k, finished);
      ProgressFits(st, i, x, prime, c, d);
      k, finished := InverseStep(u, v, r, s, zero, k, finished);
      c, d := ProgressStep(st, i, x, prime, c, d, w);
    }
    RunFinishes(Config(u, v, r, s, k, finished), x, prime, c, d);
  }

  /**
   * x = 1/x mod prime, fully reduced, or 0 when x is a multiple of prime. The iteration count
   * is fixed; s and k are all that is read afterwards.
   */
  method InverseFast(x: array<uint32>, prime: array<uint32>)
    requires Num(x) && prime.Length == LIMBS && x != prime && Modulus(prime[..])
    requires Val(prime) % 2 == 1
    requires Val(x) % Val(prime) == 0 || Coprime(Val(x), Val(prime))
    modifies x
    ensures Num(x) && 0 <= Val(x) < Val(prime)
    ensures old(Val(x)) % Val(prime) == 0 ==> Val(x) == 0
    ensures old(Val(x)) % Val(prime) != 0 ==> Cong(old(Val(x)) * Val(x), 1, Val(prime))
  {
    hide Value, Weight, Pow, Cong, Coprime, Divided;
    ghost var input, p := Val(x), Val(prime);
    FastMod(x, prime);
    ghost var partly := Val(x);
    Mod(x, prime);
    ghost var x0 := Val(x);
    Residue(input, partly, x0, p);

    var u, v := new uint32[LIMBS], new uint32[LIMBS];
    var r, s, zero := new uint32[LIMBS], new uint32[LIMBS], new uint32[LIMBS];
    Copy(prime, u);
    Copy(x, v);
    One(s);
    Zero(r);
    Zero(zero);
    var k := InverseLoop(u, v, r, s, zero, x0, p);
    ghost var scaled := Val(s);
    DivideByLimbs(s, r, prime, k);
    ghost var y := Val(s);
    DivideByBits(s, r, prime, k);
    if x0 > 0 {
      DividedTwice(scaled, y, Val(s), k, p);
      Unscaled(x0, scaled, k, p, Val(s));
      CongInverse(x0, input, Val(s), p);
    }
    var xZero := IsZero(x);
    Cmov(x, xZero, x, s);
  }

  lemma CongInverse(x0: int, input: int, y: int, p: int)
    requires p > 0 && Cong(x0, input, p) && Cong(x0 * y, 1, p)
    ensures Cong(input * y, 1, p)
  {
    CongScale(x0, input, y, p);
  }

  /** The reduced input keeps the residue, and with it the common divisors with prime. */
  lemma Residue(input: int, partly: int, x0: int, p: int)
    requires p > 1 && Cong(partly, input, p) && x0 == partly % p
    requires input % p == 0 || Coprime(input, p)
    ensures 0 <= x0 < p && Cong(x0, input, p) && (x0 == 0 <==> input % p == 0)
    ensures x0 == 0 || Coprime(x0, p)
  {
    CongMod(partly, p);
    if input % p != 0 {
      CoprimeResidue(input, x0, p);
    }
  }
}
