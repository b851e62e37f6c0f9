/** Little-endian limb sequences in base 2^29 and the integers they stand for. */
module Limbs {
  import opened ModArith

  const LIMBS: nat := 9
  const BITS: nat := 29
  const BASE: int := 0x2000_0000

  /** The weight 2^(29*i) of limb i. */
  function Weight(i: nat): int {
    if i == 0 then 1 else BASE * Weight(i - 1)
  }

  /** What digit d is worth as limb i. */
  function Place(d: int, i: nat): int {
    d * Weight(i)
  }

  /** The number a limb sequence stands for; limbs need not be normalized. */
  function Value(s: seq<int>): int {
    if |s| == 0 then 0 else Value(s[..|s| - 1]) + Place(s[|s| - 1], |s| - 1)
  }

  ghost predicate Normalized(s: seq<int>) {
    forall i :: 0 <= i < |s| ==> 0 <= s[i] < BASE
  }

  /** The moduli the reduction code is written for. */
  ghost predicate Modulus(p: seq<int>) {
    && |p| == LIMBS && Normalized(p)
    && TWO256 - TWO224 <= Value(p) <= TWO256
  }

  const TWO224: int := 0x100000000000000000000000000000000000000000000000000000000
  const TWO256: int := 0x10000000000000000000000000000000000000000000000000000000000000000

  lemma WeightConstants()
    ensures Weight(0) == 1 && Weight(1) == BASE
    ensures Weight(8) == TWO224 * 0x100
    ensures Weight(9) == TWO256 * 0x20
  {
    assert Weight(2) == 0x400000000000000;
    assert Weight(3) == BASE * Weight(2) == 0x8000000000000000000000;
    assert Weight(4) == BASE * Weight(3) == 0x100000000000000000000000000000;
    assert Weight(5) == BASE * Weight(4) == 0x2000000000000000000000000000000000000;
    assert Weight(6) == BASE * Weight(5) == 0x40000000000000000000000000000000000000000000;
    assert Weight(7) == BASE * Weight(6) == 0x800000000000000000000000000000000000000000000000000;
    assert Weight(8) == BASE * Weight(7) == 0x10000000000000000000000000000000000000000000000000000000000;
    assert Weight(9) == BASE * Weight(8) == 0x200000000000000000000000000000000000000000000000000000000000000000;
  }

  lemma PrimesFit()
    ensures 4 * TWO256 < Weight(LIMBS)
  {
    WeightConstants();
  }

  lemma {:induction false} WeightPow(i: nat)
    ensures Weight(i) == Pow(2, BITS * i)
  {
    if i > 0 {
      WeightPow(i - 1);
      assert Pow(2, 8) == 0x100;
      PowAdd(2, 8, 8);
      PowAdd(2, 16, 13);
      assert Pow(2, 13) == 0x2000;
      PowAdd(2, BITS, BITS * (i - 1));
    }
  }

  lemma Pow256()
    ensures Pow(2, 256) == TWO256
  {
    assert Pow(2, 8) == 0x100;
    PowAdd(2, 8, 8);
    PowAdd(2, 16, 16);
    PowAdd(2, 32, 32);
    PowAdd(2, 64, 64);
    PowAdd(2, 128, 128);
  }

  lemma LimbPow()
    ensures Pow(2, BITS) == BASE
  {
    WeightPow(1);
  }

  lemma {:induction false} WeightAdd(i: nat, j: nat)
    ensures Weight(i + j) == Weight(i) * Weight(j)
  {
    if i > 0 {
      WeightAdd(i - 1, j);
      assert BASE * (Weight(i - 1) * Weight(j)) == BASE * Weight(i - 1) * Weight(j);
    }
  }

  lemma {:induction false} WeightPositive(i: nat)
    ensures Weight(i) > 0
  {
    if i > 0 {
      WeightPositive(i - 1);
    }
  }

  lemma {:induction false} WeightMonotone(i: nat, j: nat)
    requires i <= j
    ensures 0 < Weight(i) <= Weight(j)
  {
    WeightPositive(i);
    if i < j {
      WeightMonotone(i, j - 1);
    }
  }

  // ------------------------------------------------------------------- places

  lemma PlaceAdd(a: int, b: int, i: nat)
    ensures Place(a + b, i) == Place(a, i) + Place(b, i)
    ensures Place(a - b, i) == Place(a, i) - Place(b, i)
  {}

  lemma PlaceUp(d: int, i: nat)
    ensures Place(d * BASE, i) == Place(d, i + 1)
    ensures Place(0, i) == 0 && Place(1, i) == Weight(i) && Place(d, 0) == d
  {
    assert d * BASE * Weight(i) == d * (BASE * Weight(i));
  }

  /** Digits that differ in a place differ by at least the weight of the place. */
  lemma PlaceMonotone(a: int, b: int, i: nat)
    requires a <= b
    ensures Place(a, i) <= Place(b, i) && Weight(i) > 0
  {
    WeightPositive(i);
    MulMonotone(a, b, Weight(i));
  }

  lemma PlaceBelow(a: int, b: int, i: nat)
    requires Place(a, i) < Place(b, i)
    ensures a < b
  {
    if b <= a {
      PlaceMonotone(b, a, i);
    }
  }

  lemma PlaceCarry(t: int, i: nat)
    ensures Place(t, i) == Place(t % BASE, i) + Place(t / BASE, i + 1)
  {
    PlaceAdd(t % BASE, (t / BASE) * BASE, i);
    PlaceUp(t / BASE, i);
  }

  // ------------------------------------------------------------------- values

  lemma ValueEmpty()
    ensures Value([]) == 0
  {}

  lemma ValueSnoc(s: seq<int>, d: int)
    ensures Value(s + [d]) == Value(s) + Place(d, |s|)
  {
    assert (s + [d])[..|s|] == s;
  }

  /** Cutting one limb further. */
  lemma Digit(s: seq<int>, i: nat)
    requires i < |s|
    ensures Value(s[..i + 1]) == Value(s[..i]) + Place(s[i], i)
  {
    assert s[..i + 1] == s[..i] + [s[i]];
    ValueSnoc(s[..i], s[i]);
  }

  /** One step of every carry chain: emit t mod 2^29, keep t div 2^29. */
  lemma CarryStep(s: seq<int>, t: int)
    ensures Value(s + [t % BASE]) + Place(t / BASE, |s| + 1) == Value(s) + Place(t, |s|)
  {
    ValueSnoc(s, t % BASE);
    PlaceCarry(t, |s|);
  }

  lemma {:induction false} ValueSplit(s: seq<int>, i: nat)
    requires i <= |s|
    ensures Value(s) == Value(s[..i]) + Weight(i) * Value(s[i..])
  {
    if i == |s| {
      assert s[..i] == s;
    } else {
      var n := |s| - 1;
      ValueSplit(s[..n], i);
      assert s[..n][..i] == s[..i];
      assert s[i..][..n - i] == s[..n][i..];
      WeightAdd(i, n - i);
      ScaledDigit(Weight(i), Weight(n - i), Weight(n), Value(s[..n][i..]), s[n]);
    }
  }

  lemma ScaledDigit(u: int, v: int, w: int, low: int, d: int)
    requires w == u * v
    ensures u * (low + d * v) == u * low + d * w
  {
    var dv := d * v;
    assert d * w == u * dv;
    assert u * (low + dv) == u * low + u * dv;
  }

  lemma ValueHead(s: seq<int>)
    requires |s| > 0
    ensures Value(s) == s[0] + BASE * Value(s[1..])
  {
    ValueSplit(s, 1);
    assert s[..1] == [] + [s[0]];
    ValueSnoc([], s[0]);
  }

  lemma {:induction false} ValueBound(s: seq<int>)
    requires Normalized(s)
    ensures 0 <= Value(s) < Weight(|s|)
  {
    if |s| > 0 {
      var n := |s| - 1;
      ValueBound(s[..n]);
      PlaceMonotone(0, s[n], n);
      PlaceMonotone(s[n], BASE - 1, n);
      PlaceAdd(BASE, 1, n);
      PlaceUp(1, n);
    }
  }

  lemma {:induction false} ValueZeros(s: seq<int>)
    requires forall i :: 0 <= i < |s| ==> s[i] == 0
    ensures Value(s) == 0
  {
    if |s| > 0 {
      ValueZeros(s[..|s| - 1]);
    }
  }

  lemma ValueLastZero(s: seq<int>)
    requires |s| > 0 && s[|s| - 1] == 0
    ensures Value(s) == Value(s[..|s| - 1])
  {
    PlaceUp(0, |s| - 1);
  }

  /** A normalized number below Weight(i) has only zeros from limb i on. */
  lemma {:induction false} HighLimbsZero(s: seq<int>, i: nat)
    requires Normalized(s) && i <= |s| && Value(s) < Weight(i)
    ensures forall j :: i <= j < |s| ==> s[j] == 0
    decreases |s|
  {
    if i < |s| {
      var n := |s| - 1;
      ValueBound(s[..n]);
      if s[n] > 0 {
        PlaceMonotone(1, s[n], n);
        PlaceUp(1, n);
        WeightMonotone(i, n);
      }
      HighLimbsZero(s[..n], i);
    }
  }

  lemma ValueIsZero(s: seq<int>)
    requires Normalized(s) && Value(s) == 0
    ensures forall j :: 0 <= j < |s| ==> s[j] == 0
  {
    HighLimbsZero(s, 0);
  }

  /** Normalized limbs of one number are unique. */
  lemma {:induction false} ValueUnique(s: seq<int>, t: seq<int>)
    requires |s| == |t| && Normalized(s) && Normalized(t) && Value(s) == Value(t)
    ensures s == t
  {
    if |s| > 0 {
      ValueHead(s);
      ValueHead(t);
      DivUnique(Value(s), BASE, Value(s[1..]), s[0]);
      DivUnique(Value(s), BASE, Value(t[1..]), t[0]);
      ValueUnique(s[1..], t[1..]);
      assert s == [s[0]] + s[1..] && t == [t[0]] + t[1..];
    }
  }

  /** The low bit of the number is the low bit of limb 0. */
  lemma ValueParity(s: seq<int>)
    requires |s| > 0
    ensures Value(s) % 2 == s[0] % 2
  {
    hide Value;
    ValueHead(s);
    DivAddMultiple(s[0], (BASE / 2) * Value(s[1..]), 2);
  }
}
