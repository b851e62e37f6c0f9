/** The almost Montgomery inverse on integers: the algorithm that InverseFast runs on limbs. */
module AlmostInverse {
  import opened ModArith

  /** One configuration; once finished, only s and k still mean something. */
  datatype State = State(u: int, v: int, r: int, s: int, k: nat, finished: bool)

  function Start(x: int, prime: int): State {
    State(prime, x, 0, 1, 0, false)
  }

  /** One iteration in registers that hold numbers below w. */
  function Step(st: State, w: int): State
    requires w > 0
  {
    if st.finished || st.v == 1 then State(st.u, st.v / 2, 2 * st.r % w, st.s, st.k, true)
    else if st.u % 2 == 0 then State(st.u / 2, st.v, st.r, 2 * st.s % w, st.k + 1, false)
    else if st.v % 2 == 0 then State(st.u, st.v / 2, 2 * st.r % w, st.s, st.k + 1, false)
    else if st.v < st.u then State((st.u - st.v) / 2, st.v, st.r + st.s, 2 * st.s % w, st.k + 1, false)
    else State(st.u, (st.v - st.u) / 2, 2 * st.r % w, st.r + st.s, st.k + 1, false)
  }

  /**
   * The loop invariant. c and d write x as a combination of u and v, which keeps the two
   * coprime. The algorithm is its own mirror image under exchanging u with v and r with s,
   * except for the sign.
   */
  ghost predicate Half(u: int, v: int, r: int, s: int, k: nat, x: int, prime: int, c: int, d: int, sign: int)
    requires prime > 0
  {
    && u >= 1 && v >= 1 && r >= 0 && s >= 0
    && u * s + v * r == prime
    && u * c + v * d == x
    && Cong(x * s, sign * (v * Pow(2, k)), prime)
    && Cong(x * r, -sign * (u * Pow(2, k)), prime)
    && u * v * Pow(2, k) <= prime * x
  }

  /** What every unfinished iteration keeps. */
  ghost predicate Running(st: State, x: int, prime: int, c: int, d: int)
    requires prime > 0
  {
    Half(st.u, st.v, st.r, st.s, st.k, x, prime, c, d, 1) && st.s >= 1
  }

  ghost predicate Done(st: State, x: int, prime: int)
    requires prime > 0
  {
    st.finished && 0 <= st.s < prime && Cong(x * st.s, Pow(2, st.k), prime)
  }

  lemma StartRunning(x: int, prime: int)
    requires 1 <= x < prime
    ensures Running(Start(x, prime), x, prime, 0, 1)
  {
    assert -(prime * 1) == 0 + (-1) * prime;
    CongShift(0, -1, prime);
  }

  /** u and v stay coprime, so they can only meet at 1. */
  lemma MeetAtOne(st: State, x: int, prime: int, c: int, d: int)
    requires prime > 0 && Running(st, x, prime, c, d) && Coprime(x, prime)
    requires st.u == st.v
    ensures st.v == 1
  {
    if st.v > 1 {
      DivUnique(st.v, st.v, 1, 0);
      DividesCombination(st.v, st.v, st.v, st.s, st.r);
      DividesCombination(st.v, st.v, st.v, c, d);
    }
  }

  lemma RegistersFit(st: State, x: int, prime: int, c: int, d: int)
    requires prime > 0 && Running(st, x, prime, c, d)
    ensures 1 <= st.u <= prime && st.v >= 1 && st.r >= 0 && st.r + st.s <= prime
  {
    hide Cong, Pow;
    SmallTerms(st.u, st.v, st.r, st.s);
  }

  lemma SmallTerms(u: int, v: int, r: int, s: int)
    requires u >= 1 && v >= 1 && r >= 0 && s >= 1
    ensures u <= u * s + v * r && r + s <= u * s + v * r
  {
    MulMonotone(1, u, s);
    MulMonotone(1, v, r);
    MulMonotone(1, s, u);
  }

  // --------------------------------------------- how the invariant moves in each branch

  /** Halving a register that was even after the subtraction doubles the other multiplier. */
  lemma Halved(u: int, h: int, v: int, s: int, r: int)
    ensures u == 2 * h ==> u * s + v * r == h * (2 * s) + v * r
    ensures u == 2 * h + v ==> u * s + v * r == h * (2 * s) + v * (s + r)
  {}

  lemma NextPow(k: nat, a: int)
    ensures 2 * a * Pow(2, k) == a * Pow(2, k + 1)
  {}

  lemma CongDouble(a: int, b: int, m: int)
    requires m > 0 && Cong(a, b, m)
    ensures Cong(2 * a, 2 * b, m)
  {
    CongScale(a, b, 2, m);
  }

  /** The size bound: halving one of u and v pays for the doubling of 2^k. */
  lemma SizeStep(u: int, v: int, h: int, k: nat, bound: int)
    requires 2 * h <= u && v >= 0 && u * v * Pow(2, k) <= bound
    ensures h * v * Pow(2, k + 1) <= bound
  {
    PowPositive(2, k);
    MulMonotone(2 * h, u, v);
    MulMonotone(2 * h * v, u * v, Pow(2, k));
    assert h * v * (2 * Pow(2, k)) == 2 * h * v * Pow(2, k);
  }

  lemma HalfEven(u: int, v: int, r: int, s: int, k: nat, x: int, prime: int, c: int, d: int, sign: int)
    requires prime > 0 && Half(u, v, r, s, k, x, prime, c, d, sign) && u % 2 == 0
    ensures Half(u / 2, v, r, 2 * s, k + 1, x, prime, 2 * c, d, sign)
  {
    hide Cong, Pow;
    var h := u / 2;
    Halved(u, h, v, s, r);
    Halved(u, h, v, c, d);
    CongDouble(x * s, sign * (v * Pow(2, k)), prime);
    NextPow(k, v);
    NextPow(k, h);
    DoubledTerm(sign, v * Pow(2, k), v * Pow(2, k + 1));
    assert u * Pow(2, k) == h * Pow(2, k + 1);
    assert x * (2 * s) == 2 * (x * s);
    SizeStep(u, v, h, k, prime * x);
  }

  lemma DoubledTerm(sign: int, a: int, b: int)
    requires b == 2 * a
    ensures sign * b == 2 * (sign * a)
  {}

  lemma HalfOdd(u: int, v: int, r: int, s: int, k: nat, x: int, prime: int, c: int, d: int, sign: int)
    requires prime > 0 && Half(u, v, r, s, k, x, prime, c, d, sign)
    requires (u - v) % 2 == 0 && u > v
    ensures Half((u - v) / 2, v, r + s, 2 * s, k + 1, x, prime, 2 * c, c + d, sign)
  {
    hide Cong, Pow;
    var h, p := (u - v) / 2, Pow(2, k);
    Halved(u, h, v, s, r);
    Halved(u, h, v, c, d);
    CongDouble(x * s, sign * (v * p), prime);
    NextPow(k, v);
    NextPow(k, h);
    DoubledTerm(sign, v * p, v * Pow(2, k + 1));
    assert x * (2 * s) == 2 * (x * s);
    CongAdd(x * r, -sign * (u * p), x * s, sign * (v * p), prime);
    assert x * (r + s) == x * r + x * s;
    DifferenceTerm(sign, u, v, h, p, h * Pow(2, k + 1));
    SizeStep(u, v, h, k, prime * x);
  }

  lemma DifferenceTerm(sign: int, u: int, v: int, h: int, p: int, t: int)
    requires u - v == 2 * h && t == 2 * h * p
    ensures -sign * (u * p) + sign * (v * p) == -sign * t
  {
    assert t == u * p - v * p;
  }

  /** Every unfinished iteration keeps the invariant, and no register overflows. */
  lemma StepRunning(st: State, x: int, prime: int, c: int, d: int, w: int) returns (c': int, d': int)
    requires prime > 0 && Running(st, x, prime, c, d) && !st.finished && st.v != 1
    requires Coprime(x, prime) && prime % 2 == 1 && 2 * prime < w
    ensures Running(Step(st, w), x, prime, c', d') && !Step(st, w).finished
    ensures Step(st, w).k == st.k + 1
  {
    hide Half, Coprime, Pow;
    RegistersFit(st, x, prime, c, d);
    DivUnique(2 * st.r, w, 0, 2 * st.r);
    DivUnique(2 * st.s, w, 0, 2 * st.s);
    if st.u % 2 == 0 {
      assert Step(st, w) == State(st.u / 2, st.v, st.r, 2 * st.s, st.k + 1, false);
      HalfEven(st.u, st.v, st.r, st.s, st.k, x, prime, c, d, 1);
      c', d' := 2 * c, d;
    } else if st.v % 2 == 0 {
      assert Step(st, w) == State(st.u, st.v / 2, 2 * st.r, st.s, st.k + 1, false);
      Mirror(st.u, st.v, st.r, st.s, st.k, x, prime, c, d);
      HalfEven(st.v, st.u, st.s, st.r, st.k, x, prime, d, c, -1);
      c', d' := c, 2 * d;
      MirrorBack(st.u, st.v / 2, 2 * st.r, st.s, st.k + 1, x, prime, c', d');
    } else if st.v < st.u {
      assert Step(st, w) == State((st.u - st.v) / 2, st.v, st.r + st.s, 2 * st.s, st.k + 1, false);
      HalfOdd(st.u, st.v, st.r, st.s, st.k, x, prime, c, d, 1);
      c', d' := 2 * c, c + d;
    } else {
      assert Step(st, w) == State(st.u, (st.v - st.u) / 2, 2 * st.r, st.r + st.s, st.k + 1, false);
      if st.u == st.v {
        MeetAtOne(st, x, prime, c, d);
      }
      Mirror(st.u, st.v, st.r, st.s, st.k, x, prime, c, d);
      HalfOdd(st.v, st.u, st.s, st.r, st.k, x, prime, d, c, -1);
      c', d' := d + c, 2 * d;
      MirrorBack(st.u, (st.v - st.u) / 2, 2 * st.r, st.s + st.r, st.k + 1, x, prime, c', d');
    }
  }

  lemma Mirror(u: int, v: int, r: int, s: int, k: nat, x: int, prime: int, c: int, d: int)
    requires prime > 0 && Half(u, v, r, s, k, x, prime, c, d, 1)
    ensures Half(v, u, s, r, k, x, prime, d, c, -1)
  {
    hide Cong, Pow;
    assert u * v * Pow(2, k) == v * u * Pow(2, k);
    assert -(-1) * (v * Pow(2, k)) == 1 * (v * Pow(2, k));
  }

  lemma MirrorBack(u: int, v: int, r: int, s: int, k: nat, x: int, prime: int, c: int, d: int)
    requires prime > 0 && Half(v, u, s, r, k, x, prime, d, c, -1)
    ensures Half(u, v, r, s, k, x, prime, c, d, 1)
  {
    hide Cong, Pow;
    assert u * v * Pow(2, k) == v * u * Pow(2, k);
    assert -(-1) * (v * Pow(2, k)) == 1 * (v * Pow(2, k));
  }

  /** Finishing: v is 1, so s is an inverse up to 2^k, and it is fully reduced. */
  lemma StepDone(st: State, x: int, prime: int, c: int, d: int, w: int)
    requires prime > 1 && prime % 2 == 1 && Running(st, x, prime, c, d) && st.v == 1 && w > 0
    ensures Done(Step(st, w), x, prime)
  {
    hide Pow;
    RegistersFit(st, x, prime, c, d);
    if st.s == prime {
      assert x * st.s == 0 + x * prime;
      CongShift(0, x, prime);
      assert Pow(2, st.k) * 0 == 0;
      CancelPow2(st.k, 1, 0, prime);
      CongSmall(1, 0, prime);
    }
  }

  /** The product of u and v at least halves each time, so 512 iterations are never reached. */
  lemma HaltsBefore512(st: State, x: int, prime: int, c: int, d: int)
    requires 0 < prime <= Pow(2, 256) && x < prime && Running(st, x, prime, c, d)
    ensures st.k < 512
  {
    var b, p := Pow(2, 256), Pow(2, st.k);
    PowAdd(2, 256, 256);
    PowPositive(2, st.k);
    MulMonotone(1, st.u, st.v);
    MulMonotone(1, st.u * st.v, p);
    if x > 0 {
      MulMonotone(x, b - 1, prime);
      MulMonotone(prime, b, b - 1);
    } else {
      MulMonotone(x, 0, prime);
    }
    if st.k >= 512 {
      PowMonotone(2, 512, st.k);
    }
  }

  /** Removing the factor 2^k that the loop accumulated leaves the inverse. */
  lemma Unscaled(x: int, s: int, k: nat, prime: int, y: int)
    requires prime > 0 && prime % 2 == 1 && Cong(x * s, Pow(2, k), prime)
    requires Cong(Pow(2, k) * y, s, prime)
    ensures Cong(x * y, 1, prime)
  {
    hide Cong, Pow;
    var p := Pow(2, k);
    CongScale(p * y, s, x, prime);
    assert p * y * x == p * (x * y) && s * x == x * s && p * 1 == p;
    CongTransitive(p * (x * y), x * s, p * 1, prime);
    CancelPow2(k, x * y, 1, prime);
  }

  // ------------------------------------------------------------- the fixed-length run

  /** Where the run stands after i iterations; x == 0 never finishes and spins on v == 0. */
  ghost predicate Progress(st: State, i: nat, x: int, prime: int, c: int, d: int)
    requires prime > 0
  {
    if x == 0 then st == State(prime, 0, 0, 1, i, false)
    else if st.finished then Done(st, x, prime) && st.k < 512
    else Running(st, x, prime, c, d) && st.k == i
  }

  lemma StartProgress(x: int, prime: int)
    requires 0 <= x < prime
    ensures Progress(Start(x, prime), 0, x, prime, 0, 1)
  {
    if x > 0 {
      StartRunning(x, prime);
    }
  }

  /** What a step demands of the registers: the sum r + s must fit when it is formed. */
  lemma ProgressFits(st: State, i: nat, x: int, prime: int, c: int, d: int)
    requires prime > 0 && Progress(st, i, x, prime, c, d)
    ensures !st.finished ==> st.r + st.s <= prime
    ensures !st.finished ==> st.v != 0 || x == 0
    ensures 0 <= st.s && (prime > 1 ==> st.finished ==> st.s < prime)
  {
    hide Half;
    if x != 0 && !st.finished {
      RegistersFit(st, x, prime, c, d);
    }
  }

  lemma ProgressStep(st: State, i: nat, x: int, prime: int, c: int, d: int, w: int) returns (c': int, d': int)
    requires 1 < prime <= Pow(2, 256) && prime % 2 == 1 && 2 * prime < w && 0 <= x < prime
    requires x == 0 || Coprime(x, prime)
    requires Progress(st, i, x, prime, c, d)
    ensures Progress(Step(st, w), i + 1, x, prime, c', d')
  {
    hide Half, Pow, Cong, Coprime;
    c', d' := c, d;
    if x == 0 {
      DivUnique(0, w, 0, 0);
    } else if st.finished {
    } else {
      HaltsBefore512(st, x, prime, c, d);
      if st.v == 1 {
        StepDone(st, x, prime, c, d, w);
      } else {
        c', d' := StepRunning(st, x, prime, c, d, w);
      }
    }
  }

  /** The fixed 522 iterations suffice. */
  lemma RunFinishes(st: State, x: int, prime: int, c: int, d: int)
    requires 1 < prime <= Pow(2, 256) && 0 <= x < prime && Progress(st, 522, x, prime, c, d)
    ensures x > 0 ==> Cong(x * st.s, Pow(2, st.k), prime)
    ensures 0 <= st.s < prime && st.k <= 522
  {
    hide Half, Pow, Cong;
    if x > 0 && !st.finished {
      HaltsBefore512(st, x, prime, c, d);
    }
  }
}
