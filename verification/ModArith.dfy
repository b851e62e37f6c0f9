/** Integer division, congruences and divisibility: the arithmetic every module below rests on. */
module ModArith {

  type uint8 = x: int | 0 <= x < 0x100
  type uint32 = x: int | 0 <= x < 0x1_0000_0000
  type uint64 = x: int | 0 <= x < 0x1_0000_0000_0000_0000

  const TWO32: int := 0x1_0000_0000

  // ---------------------------------------------------------------- division

  /** Quotient and remainder are the only pair with the remainder in range. */
  lemma DivUnique(a: int, m: int, q: int, r: int)
    requires m > 0 && a == q * m + r && 0 <= r < m
    ensures a / m == q && a % m == r
  {
    var d := a / m - q;
    assert a == (a / m) * m + a % m;
    assert d * m == r - a % m;
    if d > 0 {
      MulMonotone(1, d, m);
    } else if d < 0 {
      MulMonotone(d, -1, m);
    }
  }

  lemma MulMonotone(a: int, b: int, c: int)
    requires a <= b && c >= 0
    ensures a * c <= b * c
  {}

  /** The product of two numbers below w. */
  lemma ProductBound(a: int, b: int, w: int)
    requires 0 <= a < w && 0 <= b < w
    ensures 0 <= a * b <= (w - 1) * (w - 1) < w * w
  {
    MulMonotone(0, a, b);
    MulMonotone(a, w - 1, b);
    MulMonotone(b, w - 1, w - 1);
    assert (w - 1) * (w - 1) == w * w - 2 * w + 1;
  }

  lemma QuotientRange(q: int, d: int, r: int, b: int)
    requires d > 0 && 0 <= r < d && 0 <= q * d + r < d * b
    ensures 0 <= q < b
  {
    if q < 0 {
      MulMonotone(q, -1, d);
    } else if q >= b {
      MulMonotone(b, q, d);
    }
  }

  lemma DivNonNegative(a: nat, m: int)
    requires m > 0
    ensures a / m >= 0
  {}

  lemma DivAddMultiple(a: int, q: int, m: int)
    requires m > 0
    ensures (a + q * m) / m == a / m + q
    ensures (a + q * m) % m == a % m
  {
    assert a + q * m == (a / m + q) * m + a % m;
    DivUnique(a + q * m, m, a / m + q, a % m);
  }

  /** Dividing twice is dividing by the product. */
  lemma DivDiv(a: nat, b: int, c: int)
    requires b > 0 && c > 0
    ensures b * c > 0
    ensures a / b / c == a / (b * c)
  {
    MulMonotone(1, b, c);
    var q, r := a / b, a % b;
    var q2, r2 := q / c, q % c;
    assert a == q * b + r && q == q2 * c + r2;
    assert (q2 * c + r2) * b == q2 * (b * c) + r2 * b;
    assert a == q2 * (b * c) + (r2 * b + r);
    MulMonotone(r2, c - 1, b);
    assert (c - 1) * b == b * c - b;
    MulMonotone(0, r2, b);
    DivUnique(a, b * c, q2, r2 * b + r);
  }

  lemma ModLe(a: nat, m: int)
    requires m > 0
    ensures 0 <= a % m <= a && a % m < m
  {
    if a < m {
      DivUnique(a, m, 0, a);
    }
  }

  lemma DivMonotone(a: int, b: int, m: int)
    requires m > 0 && a <= b
    ensures a / m <= b / m
  {
    if a / m > b / m {
      MulMonotone(b / m + 1, a / m, m);
    }
  }

  // ------------------------------------------------------------- congruences

  ghost predicate Cong(a: int, b: int, m: int)
    requires m > 0
  {
    a % m == b % m
  }

  lemma CongShift(a: int, q: int, m: int)
    requires m > 0
    ensures Cong(a + q * m, a, m)
  {
    DivAddMultiple(a, q, m);
  }

  lemma CongSelf(a: int, m: int)
    requires m > 0
    ensures Cong(a, a, m)
  {}

  lemma CongSymmetric(a: int, b: int, m: int)
    requires m > 0 && Cong(a, b, m)
    ensures Cong(b, a, m)
  {}

  lemma CongZero(a: int, m: int)
    requires m > 0
    ensures Cong(a, 0, m) <==> a % m == 0
  {}

  lemma CongTransitive(a: int, b: int, c: int, m: int)
    requires m > 0 && Cong(a, b, m) && Cong(b, c, m)
    ensures Cong(a, c, m)
  {}

  lemma CongDiff(a: int, b: int, m: int) returns (q: int)
    requires m > 0 && Cong(a, b, m)
    ensures a == b + q * m
  {
    q := a / m - b / m;
    assert a == (a / m) * m + a % m && b == (b / m) * m + b % m;
  }

  lemma CongAdd(a: int, b: int, c: int, d: int, m: int)
    requires m > 0 && Cong(a, b, m) && Cong(c, d, m)
    ensures Cong(a + c, b + d, m)
  {
    var p := CongDiff(a, b, m);
    var q := CongDiff(c, d, m);
    assert a + c == b + d + (p + q) * m;
    CongShift(b + d, p + q, m);
  }

  lemma CongNeg(a: int, b: int, m: int)
    requires m > 0 && Cong(a, b, m)
    ensures Cong(-a, -b, m)
  {
    var p := CongDiff(a, b, m);
    assert -a == -b + (-p) * m;
    CongShift(-b, -p, m);
  }

  lemma CongScale(a: int, b: int, c: int, m: int)
    requires m > 0 && Cong(a, b, m)
    ensures Cong(a * c, b * c, m)
  {
    var p := CongDiff(a, b, m);
    var q := p * c;
    calc {
      a * c;
      (b + p * m) * c;
      b * c + q * m;
    }
    CongShift(b * c, q, m);
  }

  lemma CongMul(a: int, b: int, c: int, d: int, m: int)
    requires m > 0 && Cong(a, b, m) && Cong(c, d, m)
    ensures Cong(a * c, b * d, m)
  {
    CongScale(a, b, c, m);
    CongScale(c, d, b, m);
    assert c * b == b * c && d * b == b * d;
  }

  lemma CongMod(a: int, m: int)
    requires m > 0
    ensures Cong(a % m, a, m)
  {
    DivUnique(a % m, m, 0, a % m);
  }

  /** Numbers in [0, m) are congruent only when equal. */
  lemma CongSmall(a: int, b: int, m: int)
    requires m > 0 && 0 <= a < m && 0 <= b < m && Cong(a, b, m)
    ensures a == b
  {
    DivUnique(a, m, 0, a);
    DivUnique(b, m, 0, b);
  }

  // ------------------------------------------------- divisibility and primes

  ghost predicate Divides(d: int, a: int)
    requires d > 0
  {
    a % d == 0
  }

  lemma DividesCombination(d: int, a: int, b: int, s: int, t: int)
    requires d > 0 && Divides(d, a) && Divides(d, b)
    ensures Divides(d, a * s + b * t)
  {
    CongMul(a, 0, s, s, d);
    CongMul(b, 0, t, t, d);
    CongAdd(a * s, 0, b * t, 0, d);
  }

  ghost predicate Coprime(a: int, b: int) {
    forall d: int :: d > 1 && Divides(d, a) ==> !Divides(d, b)
  }

  ghost predicate Prime(p: int) {
    p > 1 && forall d: int :: d > 1 && Divides(d, p) ==> d == p
  }

  lemma PrimeCoprime(p: int, a: int)
    requires Prime(p) && a % p != 0
    ensures Coprime(a, p)
  {}

  /** Bezout's identity. */
  lemma Bezout(a: nat, b: nat) returns (s: int, t: int, g: int)
    requires a + b > 0
    ensures g > 0 && Divides(g, a) && Divides(g, b)
    ensures g == a * s + b * t
    decreases b
  {
    if b == 0 {
      s, t, g := 1, 0, a;
      DivUnique(a, a, 1, 0);
    } else {
      var s', t', g' := Bezout(b, a % b);
      var q := a / b;
      assert a == q * b + a % b;
      s, t, g := t', s' - q * t', g';
      DividesCombination(g, b, a % b, q, 1);
      assert b * q + (a % b) * 1 == a;
      assert a * s + b * t == t' * (a - q * b) + b * s';
    }
  }

  /** Numbers coprime to the modulus have an inverse. */
  lemma InverseExists(a: int, m: int) returns (w: int)
    requires m > 1 && Coprime(a, m)
    ensures 0 <= w < m && Cong(a * w, 1, m)
  {
    var b := a % m;
    var s, t, g := Bezout(b, m);
    var q := a / m;
    assert a == m * q + b * 1;
    if g > 1 {
      DividesCombination(g, m, b, q, 1);
    }
    w := s % m;
    CongMod(s, m);
    CongMod(a, m);
    CongMul(a, b, w, s, m);
    assert b * s == 1 + (-t) * m;
    CongShift(1, -t, m);
  }

  /** Multiplying by a unit loses nothing. */
  lemma CancelUnit(u: int, w: int, a: int, b: int, m: int)
    requires m > 0 && Cong(u * w, 1, m) && Cong(u * a, u * b, m)
    ensures Cong(a, b, m)
  {
    CongMul(u * a, u * b, w, w, m);
    CongMul(u * w, 1, a, a, m);
    CongMul(u * w, 1, b, b, m);
    assert u * a * w == u * w * a && u * b * w == u * w * b;
  }

  /** A factor coprime to the modulus keeps what is not 0. */
  lemma CoprimeProduct(a: int, b: int, m: int)
    requires m > 1 && a % m != 0 && Coprime(b, m)
    ensures (a * b) % m != 0
  {
    if (a * b) % m == 0 {
      var w := InverseExists(b, m);
      assert b * 0 == 0 && a * b == b * a;
      DivUnique(0, m, 0, 0);
      CancelUnit(b, w, a, 0, m);
    }
  }

  lemma OneCoprime(m: int)
    ensures Coprime(1, m)
  {
    forall d: int | d > 1
      ensures !Divides(d, 1)
    {
      DivUnique(1, d, 0, 1);
    }
  }

  /** Euclid's lemma, in the form the signature code needs. */
  lemma PrimeProduct(a: int, b: int, p: int)
    requires Prime(p) && a % p != 0 && b % p != 0
    ensures (a * b) % p != 0
  {
    PrimeCoprime(p, b);
    CoprimeProduct(a, b, p);
  }

  /** Two cancels modulo an odd number. */
  lemma CancelTwo(a: int, b: int, m: int)
    requires m > 0 && m % 2 == 1 && Cong(2 * a, 2 * b, m)
    ensures Cong(a, b, m)
  {
    var h := m / 2 + 1;
    assert 2 * h == 1 + 1 * m;
    CongShift(1, 1, m);
    CancelUnit(2, h, a, b, m);
  }

  // ----------------------------------------------------------------- powers

  function Pow(b: int, e: nat): int {
    if e == 0 then 1 else b * Pow(b, e - 1)
  }

  lemma PowZero(b: int)
    ensures Pow(b, 0) == 1
  {}

  lemma {:induction false} PowAdd(b: int, e: nat, f: nat)
    ensures Pow(b, e + f) == Pow(b, e) * Pow(b, f)
  {
    if e > 0 {
      PowAdd(b, e - 1, f);
      assert Pow(b, e + f) == b * Pow(b, e + f - 1);
      assert b * (Pow(b, e - 1) * Pow(b, f)) == b * Pow(b, e - 1) * Pow(b, f);
    }
  }

  lemma {:induction false} PowMul(b: int, e: nat, f: nat)
    ensures e * f >= 0 && Pow(b, e * f) == Pow(Pow(b, e), f)
  {
    if f > 0 {
      PowMul(b, e, f - 1);
      assert e * f == e + e * (f - 1);
      PowAdd(b, e, e * (f - 1));
    }
  }

  lemma {:induction false} PowPositive(b: int, e: nat)
    requires b > 0
    ensures Pow(b, e) > 0
  {
    if e > 0 {
      PowPositive(b, e - 1);
    }
  }

  lemma {:induction false} PowMonotone(b: int, e: nat, f: nat)
    requires b > 0 && e <= f
    ensures Pow(b, e) <= Pow(b, f)
  {
    PowPositive(b, e);
    if e < f {
      PowMonotone(b, e, f - 1);
      MulMonotone(1, b, Pow(b, f - 1));
    }
  }

  lemma {:induction false} CongPow(a: int, b: int, e: nat, m: int)
    requires m > 0 && Cong(a, b, m)
    ensures Cong(Pow(a, e), Pow(b, e), m)
  {
    if e > 0 {
      CongPow(a, b, e - 1, m);
      CongMul(a, b, Pow(a, e - 1), Pow(b, e - 1), m);
    }
  }

  /** A power of two cancels modulo an odd number. */
  lemma {:induction false} CancelPow2(k: nat, a: int, b: int, m: int)
    requires m > 0 && m % 2 == 1 && Cong(Pow(2, k) * a, Pow(2, k) * b, m)
    ensures Cong(a, b, m)
  {
    if k > 0 {
      assert Pow(2, k) * a == 2 * (Pow(2, k - 1) * a);
      assert Pow(2, k) * b == 2 * (Pow(2, k - 1) * b);
      CancelTwo(Pow(2, k - 1) * a, Pow(2, k - 1) * b, m);
      CancelPow2(k - 1, a, b, m);
    }
  }
}
