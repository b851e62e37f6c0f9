/** 256-bit numbers in nine 29-bit limbs, updated in place. */
module Bignum {
  import opened ModArith
  import opened Limbs

  /** A bignum256 all of whose limbs are normalized. */
  ghost predicate Num(x: array<uint32>)
    reads x
  {
    x.Length == LIMBS && Normalized(x[..])
  }

  ghost function Val(x: array<uint32>): int
    reads x
  {
    Value(x[..])
  }

  /** The carry chain at limb i: what has been written plus what is carried. */
  lemma Carry(x: array<uint32>, i: nat, t: nat)
    requires i < x.Length && x[i] == t % BASE
    ensures Value(x[..i + 1]) + Place(t / BASE, i + 1) == Value(x[..i]) + Place(t, i)
  {
    assert x[..i + 1] == x[..i] + [t % BASE];
    CarryStep(x[..i], t);
  }

  // ------------------------------------------------------------------ queries

  method IsZero(x: array<uint32>) returns (r: bool)
    requires Num(x)
    ensures r <==> Val(x) == 0
  {
    var result := true;
    for i := 0 to LIMBS
      invariant result <==> forall j :: 0 <= j < i ==> x[j] == 0
    {
      result := result && x[i] == 0;
    }
    if result {
      ValueZeros(x[..]);
    } else if Val(x) == 0 {
      HighLimbsZero(x[..], 0);
    }
    r := result;
  }

  /** The limbs of the number 1. */
  ghost function OneLimbs(): seq<int> {
    [1, 0, 0, 0, 0, 0, 0, 0, 0]
  }

  lemma OneValue()
    ensures Value(OneLimbs()) == 1
  {
    ValueHead(OneLimbs());
    ValueZeros(OneLimbs()[1..]);
  }

  method IsOne(x: array<uint32>) returns (r: bool)
    requires Num(x)
    ensures r <==> Val(x) == 1
  {
    hide Value;
    var result := x[0] == 1;
    for i := 1 to LIMBS
      invariant result <==> x[0] == 1 && forall j :: 1 <= j < i ==> x[j] == 0
    {
      result := result && x[i] == 0;
    }
    OneValue();
    if result {
      assert x[..] == OneLimbs();
    } else if Val(x) == 1 {
      ValueUnique(x[..], OneLimbs());
    }
    r := result;
  }

  method IsEqual(x: array<uint32>, y: array<uint32>) returns (r: bool)
    requires Num(x) && Num(y)
    ensures r <==> Val(x) == Val(y)
  {
    hide Value;
    var result := true;
    for i := 0 to LIMBS
      invariant result <==> forall j :: 0 <= j < i ==> x[j] == y[j]
    {
      result := result && x[i] == y[i];
    }
    if result {
      assert x[..] == y[..];
    } else if Val(x) == Val(y) {
      ValueUnique(x[..], y[..]);
    }
    r := result;
  }

  /** Comparison without branches: the first differing limb decides which register wins. */
  method IsLess(x: array<uint32>, y: array<uint32>) returns (r: bool)
    requires Num(x) && Num(y)
    ensures r <==> Val(x) < Val(y)
  {
    hide Value;
    ValueEmpty();
    assert x[LIMBS..] == [] && y[LIMBS..] == [];
    var res1: uint32, res2: uint32 := 0, 0;
    for i := LIMBS downto 0
      invariant res1 < Pow(2, LIMBS - i) && res2 < Pow(2, LIMBS - i)
      invariant res1 > res2 <==> Value(x[i..]) < Value(y[i..])
      invariant res1 == res2 <==> Value(x[i..]) == Value(y[i..])
    {
      PowMonotone(2, LIMBS - i, 9);
      ghost var before := Pow(2, LIMBS - (i + 1));
      res1 := res1 * 2 + (if x[i] < y[i] then 1 else 0);
      res2 := res2 * 2 + (if x[i] > y[i] then 1 else 0);
      assert Pow(2, LIMBS - i) == 2 * before;
      ValueHead(x[i..]);
      ValueHead(y[i..]);
      assert x[i..][1..] == x[i + 1..] && y[i..][1..] == y[i + 1..];
    }
    assert x[0..] == x[..] && y[0..] == y[..];
    r := res1 > res2;
  }

  method IsEven(x: array<uint32>) returns (r: bool)
    requires Num(x)
    ensures r <==> Val(x) % 2 == 0
  {
    ValueParity(x[..]);
    r := x[0] % 2 == 0;
  }

  // ------------------------------------------------------- copies and choices

  method Copy(x: array<uint32>, y: array<uint32>)
    requires x.Length == y.Length == LIMBS
    modifies y
    ensures y[..] == old(x[..])
  {
    for i := 0 to LIMBS
      invariant y[..i] == old(x[..i])
      invariant x[i..] == old(x[i..])
    {
      y[i] := x[i];
    }
  }

  method Zero(x: array<uint32>)
    requires x.Length == LIMBS
    modifies x
    ensures Num(x) && Val(x) == 0
  {
    for i := 0 to LIMBS
      invariant forall j :: 0 <= j < i ==> x[j] == 0
    {
      x[i] := 0;
    }
    ValueZeros(x[..]);
  }

  method One(x: array<uint32>)
    requires x.Length == LIMBS
    modifies x
    ensures Num(x) && Val(x) == 1
  {
    x[0] := 1;
    for i := 1 to LIMBS
      invariant x[0] == 1 && forall j :: 1 <= j < i ==> x[j] == 0
    {
      x[i] := 0;
    }
    assert x[..] == OneLimbs();
    OneValue();
  }

  method Cmov(res: array<uint32>, cond: bool, truecase: array<uint32>, falsecase: array<uint32>)
    requires res.Length == truecase.Length == falsecase.Length == LIMBS
    modifies res
    ensures res[..] == if cond then old(truecase[..]) else old(falsecase[..])
  {
    for i := 0 to LIMBS
      invariant forall j :: 0 <= j < i ==> res[j] == if cond then old(truecase[j]) else old(falsecase[j])
      invariant forall j :: i <= j < LIMBS ==> truecase[j] == old(truecase[j]) && falsecase[j] == old(falsecase[j])
    {
      res[i] := if cond then truecase[i] else falsecase[i];
    }
  }

  // --------------------------------------------------------- carry chains

  lemma AddPlaces(t: int, acc: int, x: int, y: int, i: nat)
    requires t == acc + x + y
    ensures Place(t, i) == Place(acc, i) + Place(x, i) + Place(y, i)
  {
    PlaceAdd(acc, x, i);
    PlaceAdd(acc + x, y, i);
  }

  /** x += y; exact when the sum fits, which callers must know. */
  method Add(x: array<uint32>, y: array<uint32>)
    requires Num(x) && Num(y) && Val(x) + Val(y) < Weight(LIMBS)
    modifies x
    ensures Num(x) && Val(x) == old(Val(x)) + old(Val(y))
  {
    hide Value, Place, Weight;
    ghost var xs, ys := x[..], y[..];
    var acc: uint32 := 0;
    ValueEmpty();
    PlaceUp(0, 0);
    for i := 0 to LIMBS
      invariant acc <= 7
      invariant forall j :: i <= j < LIMBS ==> x[j] == xs[j] && y[j] == ys[j]
      invariant Normalized(x[..i])
      invariant Value(x[..i]) + Place(acc, i) == Value(xs[..i]) + Value(ys[..i])
    {
      ghost var before := acc;
      acc := acc + x[i] + y[i];
      ghost var t := acc;
      x[i] := acc % BASE;
      acc := acc / BASE;
      Carry(x, i, t);
      Digit(xs, i);
      Digit(ys, i);
      AddPlaces(t, before, xs[i], ys[i], i);
    }
    assert x[..LIMBS] == x[..] && xs[..LIMBS] == xs && ys[..LIMBS] == ys;
    ValueBound(x[..]);
    PlaceUp(0, LIMBS);
    PlaceBelow(acc, 1, LIMBS);
  }

  lemma SubtractPlaces(t: int, acc: int, x: int, y: int, i: nat)
    requires t == acc + (BASE - 1) + x - y
    ensures Place(t, i) == Place(acc, i) + Place(1, i + 1) - Place(1, i) + Place(x, i) - Place(y, i)
  {
    PlaceUp(1, i);
    PlaceAdd(BASE, 1, i);
    PlaceAdd(acc, BASE - 1, i);
    PlaceAdd(acc + (BASE - 1), x, i);
    PlaceAdd(acc + (BASE - 1) + x, y, i);
  }

  /**
   * res = x - y. The comment in the source asks for x >= y, but Mod calls it for smaller x
   * too: the result is then the difference modulo 2^261, still normalized.
   */
  method Subtract(x: array<uint32>, y: array<uint32>, res: array<uint32>)
    requires Num(x) && Num(y) && res.Length == LIMBS
    modifies res
    ensures Weight(LIMBS) > 0
    ensures Num(res) && Val(res) == (old(Val(x)) - old(Val(y))) % Weight(LIMBS)
  {
    hide Value, Place, Weight;
    ghost var xs, ys := x[..], y[..];
    var acc: uint32 := 1;
    ValueEmpty();
    for i := 0 to LIMBS
      invariant acc <= 1
      invariant forall j :: i <= j < LIMBS ==> x[j] == xs[j] && y[j] == ys[j]
      invariant Normalized(res[..i])
      invariant Value(res[..i]) + Place(acc, i) == Place(1, i) + Value(xs[..i]) - Value(ys[..i])
    {
      ghost var before := acc;
      acc := acc + (BASE - 1) + x[i] - y[i];
      ghost var t := acc;
      res[i] := acc % BASE;
      acc := acc / BASE;
      Carry(res, i, t);
      Digit(xs, i);
      Digit(ys, i);
      SubtractPlaces(t, before, xs[i], ys[i], i);
    }
    assert res[..LIMBS] == res[..] && xs[..LIMBS] == xs && ys[..LIMBS] == ys;
    ValueBound(res[..]);
    BorrowedDifference(Val(res), acc, Value(xs) - Value(ys));
  }

  lemma BorrowedDifference(v: int, acc: int, d: int)
    requires v + Place(acc, LIMBS) == Place(1, LIMBS) + d && 0 <= v < Weight(LIMBS)
    ensures v == d % Weight(LIMBS)
  {
    var w := Weight(LIMBS);
    assert d == (acc - 1) * w + v;
    DivUnique(d, w, acc - 1, v);
  }

  // ---------------------------------------------------------------- shifting

  /** Doubling a limb: one bit moves up, the rest stays. */
  lemma TopBit(a: int, c: int)
    requires 0 <= a < BASE && 0 <= c <= 1
    ensures (2 * a + c) % BASE == 2 * a % BASE + c
    ensures (2 * a + c) / BASE == a / (BASE / 2)
    ensures 0 <= a / (BASE / 2) <= 1 && 0 <= 2 * a % BASE + c < BASE
  {
    if a >= BASE / 2 {
      var d := a - BASE / 2;
      assert 2 * a == 1 * BASE + 2 * d;
    }
  }

  lemma ShiftedLimb(hi: int, lo: int)
    requires 0 <= hi < BASE && 0 <= lo < BASE
    ensures 0 <= 2 * hi % BASE + lo / (BASE / 2) < BASE
    ensures 0 <= 2 * hi % BASE < BASE
  {
    TopBit(lo, 0);
    TopBit(hi, lo / (BASE / 2));
  }

  /** Shifting left is a carry chain whose carry into limb j is the top bit of limb j - 1. */
  lemma {:induction false} ShiftLeftValue(a: seq<int>, b: seq<int>, k: nat)
    requires 1 <= k <= |a| == |b| && Normalized(a)
    requires b[0] == 2 * a[0] % BASE
    requires forall j :: 1 <= j < k ==> b[j] == 2 * a[j] % BASE + a[j - 1] / (BASE / 2)
    ensures Value(b[..k]) + Place(a[k - 1] / (BASE / 2), k) == 2 * Value(a[..k])
  {
    hide Value, Place;
    var j := k - 1;
    var c := if j == 0 then 0 else a[j - 1] / (BASE / 2);
    if k == 1 {
      ValueEmpty();
      PlaceUp(0, 0);
      assert a[..0] == [] && b[..0] == [];
    } else {
      ShiftLeftValue(a, b, j);
      TopBit(a[j - 1], 0);
    }
    var t := 2 * a[j] + c;
    TopBit(a[j], c);
    assert b[..k] == b[..j] + [t % BASE];
    CarryStep(b[..j], t);
    Digit(a, j);
    AddPlaces(t, c, a[j], a[j], j);
  }

  /** x <<= 1; the top bit falls off when x >= 2^260, as it does in the finished inversion. */
  method Lshift(x: array<uint32>)
    requires Num(x)
    modifies x
    ensures Weight(LIMBS) > 0
    ensures Num(x) && Val(x) == 2 * old(Val(x)) % Weight(LIMBS)
  {
    hide Value, Place, Weight;
    ghost var xs := x[..];
    for i := LIMBS - 1 downto 0
      invariant Normalized(x[..])
      invariant forall j :: 0 <= j <= i ==> x[j] == xs[j]
      invariant forall j :: i < j < LIMBS ==> x[j] == 2 * xs[j] % BASE + xs[j - 1] / (BASE / 2)
    {
      ShiftedLimb(x[i + 1], x[i]);
      x[i + 1] := 2 * x[i + 1] % BASE + x[i] / (BASE / 2);
    }
    ShiftedLimb(x[0], 0);
    x[0] := 2 * x[0] % BASE;
    ShiftLeftValue(xs, x[..], LIMBS);
    assert x[..][..LIMBS] == x[..] && xs[..LIMBS] == xs;
    ValueBound(x[..]);
    LostBits(Val(x), xs[LIMBS - 1] / (BASE / 2), 2 * Value(xs));
  }

  lemma LostBits(v: int, top: int, d: int)
    requires v + Place(top, LIMBS) == d && 0 <= v < Weight(LIMBS)
    ensures v == d % Weight(LIMBS)
  {
    DivUnique(d, Weight(LIMBS), top, v);
  }

  /** Limb a loses its bits below c upwards and receives those of the limb above. */
  lemma ShiftedPlaces(a: int, up: int, b: int, i: nat, c: int, d: int)
    requires c > 0 && c * d == BASE && b == a / c + up * d
    ensures c * Place(b, i) == Place(a, i) - Place(a % c, i) + Place(up, i + 1)
  {
    assert c * b == a - a % c + up * BASE by {
      assert c * (a / c + up * d) == c * (a / c) + up * (c * d);
    }
    assert c * Place(b, i) == Place(c * b, i);
    PlaceAdd(a, a % c, i);
    PlaceAdd(a - a % c, up * BASE, i);
    PlaceUp(up, i);
  }

  /** Shifting right by the bits of c, where c * d == 2^29. */
  lemma {:induction false} ShiftRightValue(a: seq<int>, b: seq<int>, k: nat, c: int, d: int)
    requires k < |a| == |b| && Normalized(a) && c > 0 && c * d == BASE
    requires forall j :: 0 <= j < k ==> b[j] == a[j] / c + (a[j + 1] % c) * d
    ensures c * Value(b[..k]) + a[0] % c == Value(a[..k]) + Place(a[k] % c, k)
  {
    hide Value, Place;
    if k == 0 {
      assert a[..0] == [] && b[..0] == [];
      ValueEmpty();
      PlaceUp(a[0] % c, 0);
    } else {
      var j := k - 1;
      ShiftRightValue(a, b, j, c, d);
      Digit(a, j);
      Digit(b, j);
      ShiftedPlaces(a[j], a[k] % c, b[j], j, c, d);
      assert c * (Value(b[..j]) + Place(b[j], j)) == c * Value(b[..j]) + c * Place(b[j], j);
    }
  }

  /** The whole shift, top limb included: floor division by c. */
  lemma ShiftRightAll(a: seq<int>, b: seq<int>, c: int, d: int)
    requires |a| == |b| == LIMBS && Normalized(a) && c > 0 && c * d == BASE
    requires forall j :: 0 <= j < 8 ==> b[j] == a[j] / c + (a[j + 1] % c) * d
    requires b[8] == a[8] / c
    ensures Value(b) == Value(a) / c
  {
    hide Value, Place;
    ShiftRightValue(a, b, 8, c, d);
    Digit(a, 8);
    Digit(b, 8);
    assert b[..9] == b && a[..9] == a;
    ShiftedPlaces(a[8], 0, b[8], 8, c, d);
    PlaceUp(0, 9);
    ExactQuotient(Value(a), c, Value(b[..8]), Place(b[8], 8), a[0] % c);
  }

  lemma ExactQuotient(a: int, c: int, low: int, high: int, r: int)
    requires c > 0 && 0 <= r < c && c * low + r + c * high == a
    ensures low + high == a / c
  {
    var q := low + high;
    assert c * q == c * low + c * high;
    DivUnique(a, c, q, r);
  }

  method Rshift(x: array<uint32>)
    requires Num(x)
    modifies x
    ensures Num(x) && Val(x) == old(Val(x)) / 2
  {
    hide Value, Place, Weight;
    ghost var xs := x[..];
    for i := 0 to LIMBS - 1
      invariant Normalized(x[..])
      invariant forall j :: i <= j < LIMBS ==> x[j] == xs[j]
      invariant forall j :: 0 <= j < i ==> x[j] == xs[j] / 2 + (xs[j + 1] % 2) * (BASE / 2)
    {
      x[i] := x[i] / 2 + (x[i + 1] % 2) * (BASE / 2);
    }
    x[LIMBS - 1] := x[LIMBS - 1] / 2;
    ShiftRightAll(xs, x[..], 2, BASE / 2);
  }

  // ----------------------------------------------- numbers that are partly reduced

  /** Full reduction; also for x < prime, where Subtract underflows and its result is dropped. */
  method Mod(x: array<uint32>, prime: array<uint32>)
    requires Num(x) && Num(prime) && x != prime
    requires 0 <= Val(x) < 2 * Val(prime)
    modifies x
    ensures Num(x) && Val(x) == old(Val(x)) % Val(prime)
  {
    hide Value, Weight;
    var less := IsLess(x, prime);
    var temp := new uint32[LIMBS];
    ValueBound(x[..]);
    ValueBound(prime[..]);
    Subtract(x, prime, temp);
    if less {
      DivUnique(Val(x), Val(prime), 0, Val(x));
    } else {
      DivUnique(Val(x), Val(prime), 1, Val(x) - Val(prime));
      DivUnique(Val(x) - Val(prime), Weight(LIMBS), 0, Val(x) - Val(prime));
    }
    Cmov(x, less, x, temp);
  }

  /** The step of MultHalf: the low bit of the next limb moves down, the rest waits in acc. */
  lemma MultHalfPlaces(acc: int, t: int, carried: int, next: int, x: int, p: int, i: nat)
    requires t == acc + ((x + p) % 2) * (BASE / 2) && next == carried + (x + p) / 2
    ensures 2 * (Place(t, i) - Place(carried, i + 1) + Place(next, i + 1))
         == 2 * Place(acc, i) + Place(x, i + 1) + Place(p, i + 1)
  {
    var q, r := (x + p) / 2, (x + p) % 2;
    PlaceAdd(acc, r * (BASE / 2), i);
    PlaceAdd(r * (BASE / 2), r * (BASE / 2), i);
    PlaceUp(r, i);
    PlaceAdd(carried, q, i + 1);
    PlaceAdd(q, q, i + 1);
    PlaceAdd(q + q, r, i + 1);
    PlaceAdd(x, p, i + 1);
  }

  /** The last limb is normalized because the sum fits; all nine then hold half of it. */
  lemma MultHalfEnd(low: seq<int>, acc: nat, sum: int)
    requires |low| == 8 && Normalized(low)
    requires 2 * (Value(low) + Place(acc, 8)) == sum < 2 * Weight(LIMBS)
    ensures acc < BASE && 2 * Value(low + [acc]) == sum
  {
    hide Value, Place, Weight;
    ValueBound(low);
    ValueSnoc(low, acc);
    PlaceUp(1, 8);
    PlaceUp(1, 9);
    PlaceBelow(acc, BASE, 8);
  }

  /** x = x / 2 mod prime, for an odd prime. */
  method MultHalf(x: array<uint32>, prime: array<uint32>)
    requires Num(x) && Num(prime) && x != prime
    requires Val(prime) % 2 == 1 && Val(x) + Val(prime) < Weight(LIMBS)
    modifies x
    ensures Num(x)
    ensures 2 * Val(x) == old(Val(x)) + if old(Val(x)) % 2 == 1 then Val(prime) else 0
  {
    hide Value, Place, Weight;
    ghost var xs := x[..];
    ValueParity(xs);
    ValueParity(prime[..]);
    var odd := x[0] % 2 == 1;
    ghost var ps := if odd then prime[..] else [0, 0, 0, 0, 0, 0, 0, 0, 0];
    var acc: uint32 := (x[0] + (if odd then prime[0] else 0)) / 2;
    FirstDigit(xs);
    FirstDigit(ps);
    ValueEmpty();
    PlaceUp(acc, 0);
    for i := 0 to LIMBS - 1
      invariant acc <= BASE
      invariant forall j :: i < j < LIMBS ==> x[j] == xs[j]
      invariant Normalized(x[..i])
      invariant 2 * (Value(x[..i]) + Place(acc, i)) == Value(xs[..i + 1]) + Value(ps[..i + 1])
    {
      var temp: uint32 := x[i + 1] + (if odd then prime[i + 1] else 0);
      ghost var before := acc;
      acc := acc + (temp % 2) * (BASE / 2);
      ghost var t := acc;
      x[i] := acc % BASE;
      acc := acc / BASE;
      Carry(x, i, t);
      ghost var carried := acc;
      acc := acc + temp / 2;
      Digit(xs, i + 1);
      Digit(ps, i + 1);
      MultHalfPlaces(before, t, carried, acc, xs[i + 1], ps[i + 1], i);
    }
    assert xs[..LIMBS] == xs && ps[..LIMBS] == ps;
    if !odd {
      ValueZeros(ps);
      ValueBound(prime[..]);
    }
    ValueBound(xs);
    MultHalfEnd(x[..8], acc, Value(xs) + Value(ps));
    x[LIMBS - 1] := acc;
    assert x[..] == x[..8] + [acc];
  }

  lemma FirstDigit(s: seq<int>)
    requires |s| > 0
    ensures Value(s[..1]) == s[0]
  {
    Digit(s, 0);
    PlaceUp(s[0], 0);
    assert s[..0] == [];
  }

  // ------------------------------------------------------------ reduction mod prime

  /** The borrow m covers every product of a limb with a coefficient below m. */
  lemma BorrowBound(p: int, coef: int, m: int)
    requires 0 <= p < BASE && 0 <= coef < m
    ensures 0 <= p * coef <= (BASE - 1) * m
  {
    MulMonotone(p, BASE - 1, coef);
    MulMonotone(0, p, coef);
    MulMonotone(coef, m, BASE - 1);
  }

  /** One limb of a subtraction of coef * prime, kept nonnegative by the borrow m. */
  lemma ReducePlaces(t: int, acc: int, m: int, x: int, p: int, coef: int, i: nat, vp: int, vp': int)
    requires t == acc + (BASE - 1) * m + x - p * coef && vp' == vp + Place(p, i)
    ensures Place(t, i) == Place(acc, i) + Place(m, i + 1) - Place(m, i) + Place(x, i) - coef * vp' + coef * vp
  {
    PlaceUp(m, i);
    PlaceAdd(m * BASE, m, i);
    PlaceAdd(acc, m * BASE - m, i);
    PlaceAdd(acc + (m * BASE - m), x, i);
    PlaceAdd(acc + (m * BASE - m) + x, p * coef, i);
    assert p * coef * Weight(i) == coef * Place(p, i);
    assert coef * vp' == coef * vp + coef * Place(p, i);
  }

  lemma {:induction false} LooseValueBound(s: seq<int>)
    requires forall i :: 0 <= i < |s| ==> 0 <= s[i] < 8 * BASE
    ensures 0 <= Value(s) < 9 * Weight(|s|)
  {
    if |s| > 0 {
      var n := |s| - 1;
      LooseValueBound(s[..n]);
      PlaceMonotone(0, s[n], n);
      PlaceMonotone(s[n], 8 * BASE, n);
    }
  }

  /** The borrow comes back whole, so the written limbs are the reduced number itself. */
  lemma ReduceEnd(v: int, acc: int, m: int, x: int, p: int, coef: int)
    requires v + Place(acc, LIMBS) == Place(m, LIMBS) + x - coef * p
    requires 0 <= v < Weight(LIMBS) && 0 <= x - coef * p < 2 * p && 0 < p <= TWO256
    ensures v == x - coef * p && Cong(v, x, p)
  {
    hide Weight;
    PrimesFit();
    var total, r, w := v + Place(acc, LIMBS), x - coef * p, Weight(LIMBS);
    DivUnique(total, w, acc, v);
    DivUnique(total, w, m, r);
    assert r == x + (-coef) * p;
    CongShift(x, -coef, p);
  }

  /** Subtracting x / 2^256 copies of the prime leaves less than two primes. */
  lemma FastModBound(low: int, top: int, coef: int, prime: int)
    requires TWO256 - TWO224 <= prime <= TWO256
    requires 0 <= low < 9 * Weight(8) && 0 <= top < 0x1_0000_0000 && coef == top / 0x100_0000
    ensures 0 <= low + Place(top, 8) - coef * prime < 2 * prime
  {
    WeightConstants();
    var rest := top % 0x100_0000;
    assert Place(top, 8) == coef * (0x100_0000 * Weight(8)) + rest * Weight(8);
    MulMonotone(rest, 0xff_ffff, Weight(8));
    MulMonotone(0, rest, Weight(8));
    assert coef * TWO256 - coef * prime == coef * (TWO256 - prime);
    MulMonotone(coef, 255, TWO256 - prime);
    MulMonotone(0, coef, TWO256 - prime);
  }

  /**
   * Partial reduction. The source asks for normalized low limbs; no such assumption is made
   * here, because MultK and AddMod call it with all nine limbs unnormalized.
   */
  method FastMod(x: array<uint32>, prime: array<uint32>)
    requires x.Length == prime.Length == LIMBS && x != prime && Modulus(prime[..])
    modifies x
    ensures Num(x) && 0 <= Val(x) < 2 * Val(prime)
    ensures Cong(Val(x), old(Val(x)), Val(prime))
  {
    hide Value, Place, Weight;
    ghost var xs, ps := x[..], prime[..];
    var coef: uint32 := x[LIMBS - 1] / 0x100_0000;
    var acc: uint64 := 0x100;
    ValueEmpty();
    for i := 0 to LIMBS
      invariant acc < 0x8_0000_0000
      invariant forall j :: i <= j < LIMBS ==> x[j] == xs[j]
      invariant Normalized(x[..i])
      invariant Value(x[..i]) + Place(acc, i) == Place(0x100, i) + Value(xs[..i]) - coef * Value(ps[..i])
    {
      BorrowBound(prime[i], coef, 0x100);
      ghost var before := acc;
      acc := acc + (BASE - 1) * 0x100 + x[i] - prime[i] as uint64 * coef as uint64;
      ghost var t := acc;
      x[i] := acc % BASE;
      acc := acc / BASE;
      Carry(x, i, t);
      Digit(xs, i);
      Digit(ps, i);
      ReducePlaces(t, before, 0x100, xs[i], ps[i], coef, i, Value(ps[..i]), Value(ps[..i + 1]));
    }
    assert x[..LIMBS] == x[..] && xs[..LIMBS] == xs && ps[..LIMBS] == ps;
    Digit(xs, 8);
    LooseValueBound(xs[..8]);
    FastModBound(Value(xs[..8]), xs[8], coef, Value(ps));
    ValueBound(x[..]);
    ReduceEnd(Val(x), acc, 0x100, Value(xs), Value(ps), coef);
  }

  /** x = x + y mod prime, partly reduced: the limbs are added without any carry. */
  method AddMod(x: array<uint32>, y: array<uint32>, prime: array<uint32>)
    requires Num(x) && Num(y) && prime.Length == LIMBS && x != prime && Modulus(prime[..])
    modifies x
    ensures Num(x) && 0 <= Val(x) < 2 * Val(prime)
    ensures Cong(Val(x), old(Val(x)) + old(Val(y)), Val(prime))
  {
    hide Value, Place, Weight;
    ghost var xs, ys := x[..], y[..];
    ValueEmpty();
    for i := 0 to LIMBS
      invariant forall j :: i <= j < LIMBS ==> x[j] == xs[j] && y[j] == ys[j]
      invariant Value(x[..i]) == Value(xs[..i]) + Value(ys[..i])
    {
      ghost var done := x[..i];
      x[i] := x[i] + y[i];
      assert x[..i] == done;
      Digit(x[..], i);
      assert x[..][..i + 1] == x[..i + 1] && x[..][..i] == x[..i];
      Digit(xs, i);
      Digit(ys, i);
      PlaceAdd(xs[i], ys[i], i);
    }
    assert x[..LIMBS] == x[..] && xs[..LIMBS] == xs && ys[..LIMBS] == ys;
    FastMod(x, prime);
  }

  /** x = k * x mod prime, partly reduced, for k <= 8. */
  method MultK(x: array<uint32>, k: uint8, prime: array<uint32>)
    requires Num(x) && k <= 8 && prime.Length == LIMBS && x != prime && Modulus(prime[..])
    modifies x
    ensures Num(x) && 0 <= Val(x) < 2 * Val(prime)
    ensures Cong(Val(x), k * old(Val(x)), Val(prime))
  {
    hide Value, Place, Weight;
    ghost var xs := x[..];
    ValueEmpty();
    for i := 0 to LIMBS
      invariant forall j :: i <= j < LIMBS ==> x[j] == xs[j]
      invariant Value(x[..i]) == k * Value(xs[..i])
    {
      ghost var done := x[..i];
      MulMonotone(k, 8, x[i]);
      MulMonotone(0, k, x[i]);
      x[i] := k as uint32 * x[i];
      assert x[..i] == done;
      Digit(x[..], i);
      assert x[..][..i + 1] == x[..i + 1] && x[..][..i] == x[..i];
      Digit(xs, i);
      ScaledPlace(k, xs[i], i, Value(xs[..i]), Value(xs[..i + 1]));
    }
    assert x[..LIMBS] == x[..] && xs[..LIMBS] == xs;
    FastMod(x, prime);
  }

  lemma ScaledPlace(k: int, d: int, i: nat, v: int, v': int)
    requires v' == v + Place(d, i)
    ensures k * v' == k * v + Place(k * d, i)
  {
    assert k * d * Weight(i) == k * Place(d, i);
  }
}
