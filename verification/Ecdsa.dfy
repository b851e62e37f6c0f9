/** ECDSA over digests: signing with blinding and low-s, and verification (SEC 1 version 2, 4.1.3 and 4.1.4). */
module Ecdsa {
  import opened ModArith
  import opened Limbs
  import opened Bignum
  import opened Multiplication
  import opened Inversion
  import opened ByteOrder
  import opened ScalarMultiply
  import opened Wrappers

  /** A curve: its moduli, and the coordinates of the multiples of its base point. */
  datatype Curve = Curve(order: nat, prime: nat, xOf: nat -> nat, yOf: nat -> nat)

  ghost predicate ValidCurve(c: Curve) {
    && Prime(c.order) && c.order % 2 == 1
    && TWO256 - TWO224 <= c.order < TWO256 && TWO256 - TWO224 <= c.prime <= TWO256 && c.prime % 2 == 1
    && forall e :: 0 < e < c.order ==> c.xOf(e) < c.prime && OppositePoints(c, e)
  }

  /** A point and its negative share x, and their y are opposite modulo the prime. */
  ghost predicate OppositePoints(c: Curve, e: nat)
    requires e < c.order
  {
    c.xOf(c.order - e) == c.xOf(e) && c.yOf(c.order - e) + c.yOf(e) == c.prime
  }

  /** The moduli as the code stores them. */
  ghost predicate Stored(c: Curve, order: array<uint32>)
    reads order
  {
    Num(order) && Val(order) == c.order
  }

  // -------------------------------------------------------------- the signature equation

  ghost function InverseMod(a: int, n: int): (w: int)
    requires Prime(n) && a % n != 0
    ensures 0 <= w < n && Cong(a * w, 1, n)
  {
    HasInverse(a, n);
    var w: int :| 0 <= w < n && Cong(a * w, 1, n);
    w
  }

  lemma HasInverse(a: int, n: int)
    requires Prime(n) && a % n != 0
    ensures exists w: int :: 0 <= w < n && Cong(a * w, 1, n)
  {
    PrimeCoprime(n, a);
    var w := InverseExists(a, n);
  }

  /** There is only one inverse in range, so the code computes this one. */
  lemma InverseUnique(a: int, w: int, n: int)
    requires Prime(n) && a % n != 0 && 0 <= w < n && Cong(a * w, 1, n)
    ensures w == InverseMod(a, n)
  {
    var v := InverseMod(a, n);
    CongTransitive(a * w, 1, a * v, n);
    CancelUnit(a, v, w, v, n);
    CongSmall(w, v, n);
  }

  datatype Signature = Signature(r: nat, s: nat, recid: nat)

  /** The recovery byte before the low-s rule: parity of y, and whether x wrapped. */
  function RecoveryByte(c: Curve, k: nat): nat {
    c.yOf(k) % 2 + if c.xOf(k) >= c.order then 2 else 0
  }

  function FlipLowBit(recid: nat): nat {
    if recid % 2 == 0 then recid + 1 else recid - 1
  }

  /** What one nonce yields: nothing, or a signature with s in the lower half. */
  ghost function Attempt(c: Curve, priv: int, z: int, k: nat, canonical: Signature -> bool): Option<Signature>
    requires Prime(c.order)
  {
    if k == 0 || k >= c.order then None
    else
      var r := c.xOf(k) % c.order;
      if r == 0 then None
      else
        SmallModulus(k, c.order);
        var s := InverseMod(k, c.order) * (r * priv + z) % c.order;
        if s == 0 then None
        else
          var recid := RecoveryByte(c, k);
          var sig := if s > c.order / 2 then Signature(r, c.order - s, FlipLowBit(recid)) else Signature(r, s, recid);
          if canonical(sig) then Some(sig) else None
  }

  lemma SmallModulus(k: int, n: int)
    requires 0 < k < n
    ensures k % n != 0
  {
    DivUnique(k, n, 0, k);
  }

  /** The verdict on a signature; pub is None when the public key cannot be read. */
  ghost function Verdict(c: Curve, pub: Option<int>, r: nat, s: nat, z: nat): int
    requires Prime(c.order)
  {
    if pub.None? then 1
    else if z == 0 then 3
    else if r == 0 || s == 0 || r >= c.order || s >= c.order then 2
    else
      SmallModulus(s, c.order);
      var w := InverseMod(s, c.order);
      var e := (z * w + r * w * pub.value) % c.order;
      if e == 0 then 4
      else if c.xOf(e) % c.order != r then 5
      else 0
  }

  /** k solves the signature equation for the key d. */
  ghost predicate Solves(c: Curve, d: int, r: nat, s: nat, z: nat, k: nat)
    requires c.order > 0
  {
    k < c.order && Cong(s * k, r * d + z, c.order)
  }

  /** The equation has one solution. */
  lemma SolutionUnique(c: Curve, d: int, r: nat, s: nat, z: nat) returns (k: nat)
    requires Prime(c.order) && 0 < s < c.order
    ensures Solves(c, d, r, s, z, k)
    ensures forall l: nat :: Solves(c, d, r, s, z, l) ==> l == k
  {
    hide Prime, Cong;
    var n, m := c.order, r * d + z;
    SmallModulus(s, n);
    var w := InverseMod(s, n);
    ModRange(w * m, n);
    k := w * m % n;
    NonceEquation(s, w, m, k, n);
    assert k * s == s * k;
    forall l: nat | Solves(c, d, r, s, z, l)
      ensures l == k
    {
      CongSymmetric(s * k, m, n);
      CongTransitive(s * l, m, s * k, n);
      CancelUnit(s, w, l, k, n);
      CongSmall(l, k, n);
    }
  }

  /**
   * What verification decides: with the solution k of the signature equation, the point k * G is infinity,
   * or has r as its x modulo the order, or the signature does not match.
   */
  lemma VerdictLaw(c: Curve, d: int, r: nat, s: nat, z: nat, k: nat)
    requires Prime(c.order) && 0 < r < c.order && 0 < s < c.order && z != 0 && Solves(c, d, r, s, z, k)
    ensures Verdict(c, Some(d), r, s, z) == if k == 0 then 4 else if c.xOf(k) % c.order == r then 0 else 5
  {
    hide Prime, Cong;
    var n, m := c.order, r * d + z;
    SmallModulus(s, n);
    var w := InverseMod(s, n);
    FactorOut(z, w, r, d);
    CongScale(s * w, 1, k, n);
    CongScale(s * k, m, w, n);
    assert s * w * k == s * k * w && 1 * k == k && m * w == w * m;
    CongSymmetric(s * k * w, k, n);
    CongTransitive(k, s * k * w, w * m, n);
    CongMod(w * m, n);
    CongSymmetric(w * m % n, w * m, n);
    CongTransitive(k, w * m, w * m % n, n);
    ModRange(w * m, n);
    CongSmall(k, w * m % n, n);
  }

  /** A signature is good when the solution is a point with this x: a definition that names no algorithm. */
  ghost predicate Good(c: Curve, d: int, r: nat, s: nat, z: nat)
    requires c.order > 0
  {
    && 0 < r < c.order && 0 < s < c.order && z != 0
    && exists k: nat :: Solves(c, d, r, s, z, k) && k != 0 && c.xOf(k) % c.order == r
  }

  /** The verdict is 0 exactly for good signatures. */
  lemma VerdictExact(c: Curve, d: int, r: nat, s: nat, z: nat)
    requires Prime(c.order)
    ensures Verdict(c, Some(d), r, s, z) == 0 <==> Good(c, d, r, s, z)
  {
    hide Prime, Cong;
    if 0 < r < c.order && 0 < s < c.order && z != 0 {
      var k := SolutionUnique(c, d, r, s, z);
      VerdictLaw(c, d, r, s, z, k);
    }
  }

  /** Solving the signature equation: s * k = +-(r * priv + z) makes u1 + u2 * priv = +-k. */
  lemma RecoveredNonce(k: int, s: int, w: int, m: int, n: int)
    requires n > 0 && Cong(s * w, 1, n)
    requires Cong(s * k, m, n) || Cong(s * k, -m, n)
    ensures Cong(w * m, k, n) || Cong(w * m, -k, n)
  {
    CongScale(s * w, 1, k, n);
    assert s * w * k == s * k * w && 1 * k == k;
    if Cong(s * k, m, n) {
      CongScale(s * k, m, w, n);
      assert m * w == w * m;
    } else {
      CongScale(s * k, -m, w, n);
      assert -m * w == -(w * m);
      CongNeg(-(w * m), k, n);
    }
  }

  /** Every signature that signing can return verifies under the matching public key. */
  lemma SignedVerifies(c: Curve, priv: int, z: nat, k: nat, canonical: Signature -> bool)
    requires ValidCurve(c) && 0 < priv < c.order && z != 0
    requires Attempt(c, priv, z, k, canonical).Some?
    ensures var sig := Attempt(c, priv, z, k, canonical).value;
      && sig.s <= c.order / 2
      && Verdict(c, Some(priv), sig.r, sig.s, z) == 0
  {
    hide Cong, Prime;
    var n, sig := c.order, Attempt(c, priv, z, k, canonical).value;
    var r := c.xOf(k) % n;
    var m := r * priv + z;
    SmallModulus(k, n);
    var kInv := InverseMod(k, n);
    var s0 := kInv * m % n;
    NonceEquation(k, kInv, m, s0, n);
    if sig.s != s0 {
      NegatedEquation(s0, k, m, n);
    }
    SmallModulus(sig.s, n);
    var w := InverseMod(sig.s, n);
    RecoveredNonce(k, sig.s, w, m, n);
    var e := (z * w + r * w * priv) % n;
    FactorOut(z, w, r, priv);
    MultipleIs(w * m, k, n);
    assert OppositePoints(c, k);
  }

  lemma FactorOut(z: int, w: int, r: int, d: int)
    ensures z * w + r * w * d == w * (r * d + z)
  {
    assert r * w * d == w * (r * d);
  }

  lemma NonceEquation(k: int, kInv: int, m: int, s: int, n: int)
    requires n > 0 && Cong(k * kInv, 1, n) && s == kInv * m % n
    ensures Cong(s * k, m, n)
  {
    CongMod(kInv * m, n);
    CongScale(s, kInv * m, k, n);
    CongScale(k * kInv, 1, m, n);
    assert kInv * m * k == k * kInv * m;
  }

  lemma NegatedEquation(s: int, k: int, m: int, n: int)
    requires n > 0 && Cong(s * k, m, n)
    ensures Cong((n - s) * k, -m, n)
  {
    CongNeg(s * k, m, n);
    assert (n - s) * k == -(s * k) + k * n;
    CongShift(-(s * k), k, n);
  }

  lemma MultipleIs(a: int, k: int, n: int)
    requires 0 < k < n && (Cong(a, k, n) || Cong(a, -k, n))
    ensures a % n == k || a % n == n - k
  {
    DivUnique(k, n, 0, k);
    DivUnique(-k, n, -1, n - k);
  }

  /** The signature gives k * G away: the solution of its equation, with the parity of y and the wrap of x. */
  ghost predicate Opens(c: Curve, priv: int, z: nat, sig: Signature, k: nat)
    requires c.order > 0
  {
    && 0 < k < c.order && Solves(c, priv, sig.r, sig.s, z, k)
    && c.yOf(k) % 2 == sig.recid % 2 && c.xOf(k) == sig.r + sig.recid / 2 * c.order
  }

  /** What a nonce must yield: a signature with s in the lower half that opens to the nonce or its negative. */
  ghost predicate Signs(c: Curve, priv: int, z: nat, k: nat, sig: Signature)
    requires c.order > 0
  {
    && 0 < k < c.order && 0 < sig.r < c.order && 0 < sig.s <= c.order / 2 && sig.recid < 4
    && (Opens(c, priv, z, sig, k) || Opens(c, priv, z, sig, c.order - k))
  }

  /** y of opposite points differ in parity, and x is below twice the order. */
  lemma OppositeParity(c: Curve, k: nat)
    requires ValidCurve(c) && 0 < k < c.order
    ensures c.xOf(c.order - k) == c.xOf(k) < 2 * c.order
    ensures c.yOf(c.order - k) % 2 != c.yOf(k) % 2
  {
    assert OppositePoints(c, k);
    var y, y' := c.yOf(k), c.yOf(c.order - k);
    assert y + y' == c.prime;
  }

  lemma RecoveryBits(c: Curve, k: nat)
    requires ValidCurve(c) && 0 < k < c.order
    ensures var rec, r := RecoveryByte(c, k), c.xOf(k) % c.order;
      && rec < 4 && rec % 2 == c.yOf(k) % 2 && c.xOf(k) == r + rec / 2 * c.order
      && FlipLowBit(rec) < 4 && FlipLowBit(rec) % 2 != rec % 2 && FlipLowBit(rec) / 2 == rec / 2
  {
    hide Prime;
    OppositeParity(c, k);
    TinyModulus(c.xOf(k), c.order);
  }

  /** Recovery bytes are determined by what they say. */
  lemma RecoveryDetermined(c: Curve, k: nat, r: nat, recid: nat)
    requires ValidCurve(c) && 0 < k < c.order && r < c.order && recid < 4
    requires c.xOf(k) == r + recid / 2 * c.order
    ensures r == c.xOf(k) % c.order && recid / 2 == RecoveryByte(c, k) / 2
  {
    hide Prime;
    OppositeParity(c, k);
    TinyModulus(c.xOf(k), c.order);
  }

  lemma BothNegated(s: int, k: int, m: int, n: int)
    requires n > 0 && Cong(s * k, m, n)
    ensures Cong((n - s) * (n - k), m, n)
  {
    hide Cong;
    assert (n - s) * (n - k) == s * k + (n - s - k) * n;
    CongShift(s * k, n - s - k, n);
    CongTransitive((n - s) * (n - k), s * k, m, n);
  }

  /** Every signature that a nonce yields opens to the nonce or its negative. */
  lemma AttemptSigns(c: Curve, priv: int, z: nat, k: nat, canonical: Signature -> bool)
    requires ValidCurve(c) && Attempt(c, priv, z, k, canonical).Some?
    ensures var sig := Attempt(c, priv, z, k, canonical).value;
      Signs(c, priv, z, k, sig) && canonical(sig)
  {
    hide Cong, Prime, RecoveryByte, FlipLowBit;
    var n, sig := c.order, Attempt(c, priv, z, k, canonical).value;
    var m := sig.r * priv + z;
    SmallModulus(k, n);
    var kInv := InverseMod(k, n);
    var s0 := kInv * m % n;
    ModRange(kInv * m, n);
    ModRange(c.xOf(k), n);
    NonceEquation(k, kInv, m, s0, n);
    RecoveryBits(c, k);
    OppositeParity(c, k);
    if sig.s != s0 {
      BothNegated(s0, k, m, n);
    }
  }

  /** Opening to the negative of k with s is opening to k with the negative of s. */
  lemma NegatedSolution(s: int, k: int, m: int, n: int)
    requires n > 0 && Cong(s * (n - k), m, n)
    ensures Cong((n - s) * k, m, n)
  {
    hide Cong;
    assert (n - s) * k == s * (n - k) + (k - s) * n;
    CongShift(s * (n - k), k - s, n);
    CongTransitive((n - s) * k, s * (n - k), m, n);
  }

  lemma SolutionIsProduct(k: int, kInv: int, m: int, t: int, n: int)
    requires n > 0 && Cong(k * kInv, 1, n) && 0 <= t < n && Cong(t * k, m, n)
    ensures t == kInv * m % n
  {
    hide Cong;
    var s0 := kInv * m % n;
    NonceEquation(k, kInv, m, s0, n);
    ModRange(kInv * m, n);
    CongSymmetric(s0 * k, m, n);
    CongTransitive(t * k, m, s0 * k, n);
    assert t * k == k * t && s0 * k == k * s0;
    CancelUnit(k, kInv, t, s0, n);
    CongSmall(t, s0, n);
  }

  /** And nothing else does: the law determines the signature. */
  lemma SignsAttempt(c: Curve, priv: int, z: nat, k: nat, canonical: Signature -> bool, sig: Signature)
    requires ValidCurve(c) && Signs(c, priv, z, k, sig) && canonical(sig)
    ensures Attempt(c, priv, z, k, canonical) == Some(sig)
  {
    hide Cong, Prime, RecoveryByte, FlipLowBit;
    var n, m := c.order, sig.r * priv + z;
    SmallModulus(k, n);
    OppositeParity(c, k);
    RecoveryBits(c, k);
    RecoveryDetermined(c, k, sig.r, sig.recid);
    if Opens(c, priv, z, sig, k) {
      SolutionIsProduct(k, InverseMod(k, n), m, sig.s, n);
    } else {
      NegatedSolution(sig.s, k, m, n);
      SolutionIsProduct(k, InverseMod(k, n), m, n - sig.s, n);
    }
  }

  /** The exact result of one nonce, without the algorithm. */
  lemma AttemptExact(c: Curve, priv: int, z: nat, k: nat, canonical: Signature -> bool, sig: Signature)
    requires ValidCurve(c)
    ensures Attempt(c, priv, z, k, canonical) == Some(sig) <==> Signs(c, priv, z, k, sig) && canonical(sig)
  {
    hide Cong, Prime, Attempt, Signs;
    if Attempt(c, priv, z, k, canonical).Some? {
      AttemptSigns(c, priv, z, k, canonical);
    }
    if Signs(c, priv, z, k, sig) && canonical(sig) {
      SignsAttempt(c, priv, z, k, canonical, sig);
    }
  }

  /** Replacing s by its negative never changes the verdict: the low-s rule picks one of two. */
  lemma NegatedSignature(c: Curve, priv: int, r: nat, s: nat, z: nat)
    requires ValidCurve(c) && 0 < s < c.order
    ensures Verdict(c, Some(priv), r, c.order - s, z) == Verdict(c, Some(priv), r, s, z)
  {
    hide Prime, Cong;
    var n := c.order;
    SmallModulus(s, n);
    SmallModulus(n - s, n);
    var w, w' := InverseMod(s, n), InverseMod(n - s, n);
    OppositeInverse(s, w, w', n);
    var e := (z * w + r * w * priv) % n;
    NegatedMultiple(z, r, w, w', priv, n);
    if e != 0 {
      assert OppositePoints(c, e);
    }
  }

  lemma OppositeInverse(s: int, w: int, w': int, n: int)
    requires n > 1 && 0 <= w < n && 0 <= w' < n && Cong(s * w, 1, n) && Cong((n - s) * w', 1, n)
    ensures w' == n - w
  {
    assert (n - s) * w' == -(s * w') + w' * n;
    CongShift(-(s * w'), w', n);
    CongNeg(-(s * w'), 1, n);
    // s * -w' = 1 = s * w, so w' = -w
    assert s * -w' == -(s * w');
    CancelUnit(s, w, -w', w, n);
    if w == 0 {
      assert s * 0 == 0;
      CongSmall(0, 1, n);
    }
    OppositeResidue(w, w', n);
  }

  lemma OppositeResidue(w: int, w': int, n: int)
    requires n > 1 && 0 < w < n && 0 <= w' < n && Cong(-w', w, n)
    ensures w' == n - w
  {
    CongShift(-w', 1, n);
    if w' == 0 {
      CongSmall(0, w, n);
    } else {
      CongSmall(n - w', w, n);
    }
  }

  lemma NegatedMultiple(z: int, r: int, w: int, w': int, priv: int, n: int)
    requires n > 0 && w' == n - w
    ensures var e := (z * w + r * w * priv) % n;
      (z * w' + r * w' * priv) % n == if e == 0 then 0 else n - e
  {
    var a, b := z * w + r * w * priv, z + r * priv;
    var e := a % n;
    assert z * w' + r * w' * priv == -a + b * n by {
      assert a == w * b;
      assert z * w' + r * w' * priv == w' * b;
      assert (n - w) * b == n * b - w * b;
    }
    CongShift(-a, b, n);
    CongMod(a, n);
    CongNeg(e, a, n);
    if e == 0 {
      DivUnique(0, n, 0, 0);
    } else {
      DivUnique(-e, n, -1, n - e);
    }
  }

  // --------------------------------------------------------------------- signing

  /** Storing a coordinate or a random number as limbs. */
  method StoreInt(v: int, out: array<uint32>)
    requires out.Length == LIMBS && 0 <= v < TWO256
    modifies out
    ensures Num(out) && Val(out) == v
  {
    hide Value, Place, Weight;
    var rest := v;
    ValueEmpty();
    PlaceUp(v, 0);
    for i := 0 to LIMBS
      invariant rest >= 0
      invariant Normalized(out[..i])
      invariant Value(out[..i]) + Place(rest, i) == v
    {
      ghost var t := rest;
      out[i] := rest % BASE;
      rest := rest / BASE;
      Carry(out, i, t);
    }
    assert out[..LIMBS] == out[..];
    ValueBound(out[..]);
    PrimesFit();
    PlaceUp(0, LIMBS);
    PlaceBelow(rest, 1, LIMBS);
  }

  /** The blinded computation of s, modulo n. */
  lemma BlindedSignature(k: int, blind: int, kb: int, ki: int, r: int, priv: int, z: int,
                         s1: int, s3: int, s4: int, n: int)
    requires Prime(n) && 0 < k < n && k % n != 0
    requires Cong(kb, blind * k, n) && Cong(kb * ki, 1, n)
    requires Cong(s1, r * priv, n) && Cong(s3, ki * (s1 + z), n) && Cong(s4, blind * s3, n)
    ensures s4 % n == InverseMod(k, n) * (r * priv + z) % n
  {
    hide Cong, Prime;
    var m, w := r * priv + z, InverseMod(k, n);
    CongSelf(z, n);
    CongAdd(s1, r * priv, z, z, n);
    CongScale(s1 + z, m, ki, n);
    assert (s1 + z) * ki == ki * (s1 + z) && m * ki == ki * m;
    CongTransitive(s3, ki * (s1 + z), ki * m, n);
    CongScale(s3, ki * m, blind, n);
    assert s3 * blind == blind * s3 && ki * m * blind == blind * ki * m;
    CongTransitive(s4, blind * s3, blind * ki * m, n);
    // blind * ki is the inverse of k
    CongScale(kb, blind * k, ki, n);
    CongSymmetric(kb * ki, blind * k * ki, n);
    assert blind * k * ki == k * (blind * ki);
    CongTransitive(k * (blind * ki), kb * ki, 1, n);
    CongSymmetric(k * w, 1, n);
    CongTransitive(k * (blind * ki), 1, k * w, n);
    CancelUnit(k, w, blind * ki, w, n);
    CongScale(blind * ki, w, m, n);
    CongTransitive(s4, blind * ki * m, w * m, n);
    CongEqual(s4, w * m, n);
  }

  lemma CongEqual(a: int, b: int, n: int)
    requires n > 0
    ensures Cong(a, b, n) <==> a % n == b % n
  {}

  /** The blinded nonce is still invertible. */
  lemma BlindedCoprime(k: int, blind: int, kb: int, n: int)
    requires Prime(n) && 0 < k < n && 0 < blind < n && Cong(kb, blind * k, n)
    ensures kb % n != 0 && Coprime(kb, n)
  {
    SmallModulus(k, n);
    SmallModulus(blind, n);
    PrimeProduct(blind, k, n);
    PrimeCoprime(n, kb);
  }

  lemma TinyModulus(x: int, n: int)
    requires 0 <= x < 2 * n
    ensures x % n == if x < n then x else x - n
  {
    DivUnique(x, n, if x < n then 0 else 1, if x < n then x else x - n);
  }

  /** The numbers in s and order while s is computed from r, the nonce and the blinding factor. */
  method BlindedS(order: array<uint32>, k: array<uint32>, rx: array<uint32>, privKey: seq<uint8>, z: array<uint32>,
                  blind: int, s: array<uint32>)
    requires Num(order) && Modulus(order[..]) && Val(order) < TWO256 && Prime(Val(order)) && Val(order) % 2 == 1
    requires Num(k) && 0 < Val(k) < Val(order) && Num(rx) && 0 <= Val(rx) < Val(order)
    requires |privKey| == 32 && Num(z) && 0 <= Val(z) < TWO256 && 0 < blind < Val(order) && s.Length == LIMBS
    requires order != k && order != s && k != s && k != rx && rx != s && k != z && s != z
    modifies k, s
    ensures Val(order) > 0 && Num(s)
    ensures old(Val(k)) % Val(order) != 0
    ensures Val(s) == InverseMod(old(Val(k)), Val(order)) * (Val(rx) * BeValue(privKey) + Val(z)) % Val(order)
  {
    hide Value, Weight, Pow, Cong, Prime, Coprime, BeValue;
    ghost var n, kv, r, d, zv := Val(order), Val(k), Val(rx), BeValue(privKey), Val(z);
    var randk := new uint32[LIMBS];
    StoreInt(blind, randk);
    ProductFits(blind, kv);
    Multiply(randk, k, order);
    ghost var kb := Val(k);
    BlindedCoprime(kv, blind, kb, n);
    InverseFast(k, order);
    ghost var ki := Val(k);
    ReadBe(privKey, s);
    ProductFits(r, d);
    Multiply(rx, s, order);
    ghost var s1 := Val(s);
    PrimesFit();
    Add(s, z);
    ProductFits(ki, Val(s));
    Multiply(k, s, order);
    ghost var s3 := Val(s);
    ProductFits(blind, s3);
    Multiply(randk, s, order);
    ghost var s4 := Val(s);
    Mod(s, order);
    SmallModulus(kv, n);
    BlindedSignature(kv, blind, kb, ki, r, d, zv, s1, s3, s4, n);
  }

  /** The order as stored is a modulus the reduction code accepts. */
  lemma OrderIsModulus(c: Curve, order: seq<uint32>)
    requires ValidCurve(c) && |order| == LIMBS && Normalized(order) && Value(order) == c.order
    ensures Modulus(order) && 16 < c.order < TWO256 && c.order % 2 == 1 && Prime(c.order)
  {}

  lemma CoordinateRange(c: Curve, e: nat)
    requires ValidCurve(c) && 0 < e < c.order
    ensures c.xOf(e) < TWO256 && c.xOf(e) < 2 * c.order
    ensures c.xOf(e) % c.order == if c.xOf(e) < c.order then c.xOf(e) else c.xOf(e) - c.order
  {
    assert OppositePoints(c, e);
    TinyModulus(c.xOf(e), c.order);
  }

  /** rx = x mod order for the point k * G, with the recovery byte. */
  method NoncePoint(c: Curve, order: array<uint32>, k: array<uint32>, rx: array<uint32>) returns (recid: nat)
    requires ValidCurve(c) && Stored(c, order) && Num(k) && 0 < Val(k) < c.order
    requires rx.Length == LIMBS && rx != order && rx != k
    modifies rx
    ensures Num(rx) && Val(rx) == c.xOf(Val(k)) % c.order && recid == RecoveryByte(c, Val(k))
  {
    hide Value, Weight, Pow, Cong, Prime, Coprime;
    ghost var kv: nat := Val(k);
    OrderIsModulus(c, order[..]);
    SmallModulus(kv, c.order);
    CoordinateRange(c, kv);
    OneCoprime(c.order);
    var e := PointMultiply(order, k, 1);
    assert kv * 1 == kv;
    DivUnique(kv, c.order, 0, kv);
    StoreInt(c.xOf(e), rx);
    recid := c.yOf(e) % 2;
    var rLess := IsLess(rx, order);
    if !rLess {
      PrimesFit();
      SmallDifference(Val(rx), c.order, Weight(LIMBS));
      Subtract(rx, order, rx);
      recid := recid + 2;
    }
  }

  /** The low-s rule. */
  method LowS(c: Curve, order: array<uint32>, orderHalf: array<uint32>, s: array<uint32>, rec: nat) returns (recid: nat)
    requires Stored(c, order) && Num(orderHalf) && Val(orderHalf) == c.order / 2 && c.order < TWO256
    requires Num(s) && 0 < Val(s) < c.order && s != order && s != orderHalf
    modifies s
    ensures Num(s) && 0 < Val(s) <= c.order / 2
    ensures Val(s) == if old(Val(s)) > c.order / 2 then c.order - old(Val(s)) else old(Val(s))
    ensures recid == if old(Val(s)) > c.order / 2 then FlipLowBit(rec) else rec
  {
    hide Value, Weight;
    recid := rec;
    var high := IsLess(orderHalf, s);
    if high {
      PrimesFit();
      SmallDifference(c.order, Val(s), Weight(LIMBS));
      Subtract(order, s, s);
      recid := FlipLowBit(recid);
    }
  }

  /** Attempt, spelled out in the order in which the code decides. */
  lemma AttemptCases(c: Curve, priv: int, z: int, k: nat, canonical: Signature -> bool)
    requires Prime(c.order)
    ensures var a := Attempt(c, priv, z, k, canonical);
      && (k == 0 || k >= c.order ==> a.None?)
      && (0 < k < c.order ==> k % c.order != 0)
      && (0 < k < c.order && c.xOf(k) % c.order == 0 ==> a.None?)
      && (0 < k < c.order && c.xOf(k) % c.order != 0 ==>
        var s := InverseMod(k, c.order) * (c.xOf(k) % c.order * priv + z) % c.order;
        && (s == 0 ==> a.None?)
        && (s != 0 ==> a == Tested(canonical, Normal(c.order, c.xOf(k) % c.order, s, RecoveryByte(c, k)))))
  {
    if 0 < k < c.order {
      SmallModulus(k, c.order);
    }
  }

  /** The signature with s in the lower half. */
  function Normal(order: nat, r: nat, s: nat, rec: nat): Signature
    requires s <= order
  {
    if s > order / 2 then Signature(r, order - s, FlipLowBit(rec)) else Signature(r, s, rec)
  }

  function Tested(canonical: Signature -> bool, sig: Signature): Option<Signature> {
    if canonical(sig) then Some(sig) else None
  }

  /** Normalizes, writes out and tests the signature. */
  method EmitSignature(c: Curve, order: array<uint32>, orderHalf: array<uint32>, rx: array<uint32>, s: array<uint32>,
                       rec: nat, canonical: Signature -> bool, sig: array<uint8>) returns (ok: bool, recid: nat)
    requires Stored(c, order) && Num(orderHalf) && Val(orderHalf) == c.order / 2 && c.order < TWO256
    requires Num(rx) && 0 <= Val(rx) < c.order && Num(s) && 0 < Val(s) < c.order
    requires s != order && s != orderHalf && s != rx && sig.Length == 64
    modifies s, sig
    ensures var tested := Tested(canonical, Normal(c.order, Val(rx), old(Val(s)), rec));
      && (ok <==> tested.Some?)
      && (ok ==> tested.value == Signature(BeValue(sig[..32]), BeValue(sig[32..64]), recid))
  {
    hide Value, Weight, BeValue;
    recid := LowS(c, order, orderHalf, s, rec);
    WriteBe(rx, sig, 0);
    assert sig[..32] == sig[0..32];
    WriteBe(s, sig, 32);
    ok := canonical(Signature(BeValue(sig[..32]), BeValue(sig[32..64]), recid));
  }

  /** One pass of the signing loop: a nonce either yields the signature it should, or is skipped. */
  method SignAttempt(c: Curve, order: array<uint32>, orderHalf: array<uint32>, privKey: seq<uint8>, z: array<uint32>,
                     nonce: seq<uint8>, blind: int, canonical: Signature -> bool, sig: array<uint8>)
    returns (ok: bool, recid: nat)
    requires ValidCurve(c) && Stored(c, order) && Num(orderHalf) && Val(orderHalf) == c.order / 2
    requires |privKey| == 32 && |nonce| == 32 && Num(z) && 0 <= Val(z) < TWO256
    requires 0 < blind < c.order && sig.Length == 64
    modifies sig
    ensures ok <==> Attempt(c, BeValue(privKey), Val(z), BeValue(nonce), canonical).Some?
    ensures ok ==>
      Attempt(c, BeValue(privKey), Val(z), BeValue(nonce), canonical).value
      == Signature(BeValue(sig[..32]), BeValue(sig[32..64]), recid)
  {
    hide Value, Weight, Pow, Cong, Prime, BeValue, Attempt, Tested, Normal, RecoveryByte, ValidCurve;
    OrderIsModulus(c, order[..]);
    AttemptCases(c, BeValue(privKey), Val(z), BeValue(nonce), canonical);
    ok, recid := false, 0;
    var k := new uint32[LIMBS];
    ReadBe(nonce, k);
    var kZero := IsZero(k);
    var kLess := IsLess(k, order);
    if kZero || !kLess {
      return;
    }
    var rx, s := new uint32[LIMBS], new uint32[LIMBS];
    recid := NoncePoint(c, order, k, rx);
    var rZero := IsZero(rx);
    if rZero {
      return;
    }
    ModRange(c.xOf(Val(k)), c.order);
    BlindedS(order, k, rx, privKey, z, blind, s);
    var sZero := IsZero(s);
    if sZero {
      return;
    }
    ok, recid := EmitSignature(c, order, orderHalf, rx, s, recid, canonical, sig);
  }

  lemma ModRange(a: int, n: int)
    requires n > 0
    ensures 0 <= a % n < n
  {}

  /** The first nonce among n that yields a signature, if any. */
  ghost function FirstSignature(c: Curve, priv: int, z: int, nonces: nat -> seq<uint8>, canonical: Signature -> bool,
                                from: nat, n: nat): Option<Signature>
    requires Prime(c.order)
    decreases n - from
  {
    if from >= n then None
    else
      var a := Attempt(c, priv, z, BeValue(nonces(from)), canonical);
      if a.Some? then a else FirstSignature(c, priv, z, nonces, canonical, from + 1, n)
  }

  const MAX_TRIES: nat := 10000

  /** A nonce that yields no acceptable signature. */
  ghost predicate Skipped(c: Curve, priv: int, z: nat, k: nat, canonical: Signature -> bool)
    requires c.order > 0
  {
    forall sig :: Signs(c, priv, z, k, sig) ==> !canonical(sig)
  }

  /** The result of trying the nonces below n: the signature of the first that yields one, or none at all. */
  ghost predicate FirstSigned(c: Curve, priv: int, z: nat, nonces: nat -> seq<uint8>, canonical: Signature -> bool,
                              n: nat, first: Option<Signature>)
    requires c.order > 0
  {
    match first
    case None => forall j :: 0 <= j < n ==> Skipped(c, priv, z, BeValue(nonces(j)), canonical)
    case Some(sig) =>
      exists i :: 0 <= i < n && Signs(c, priv, z, BeValue(nonces(i)), sig) && canonical(sig)
        && forall j :: 0 <= j < i ==> Skipped(c, priv, z, BeValue(nonces(j)), canonical)
  }

  lemma SkippedExact(c: Curve, priv: int, z: nat, k: nat, canonical: Signature -> bool)
    requires ValidCurve(c)
    ensures Attempt(c, priv, z, k, canonical).None? <==> Skipped(c, priv, z, k, canonical)
  {
    hide Prime, Attempt, Signs;
    forall sig | Signs(c, priv, z, k, sig) && canonical(sig)
      ensures Attempt(c, priv, z, k, canonical) == Some(sig)
    {
      AttemptExact(c, priv, z, k, canonical, sig);
    }
    var a := Attempt(c, priv, z, k, canonical);
    if a.Some? {
      AttemptExact(c, priv, z, k, canonical, a.value);
    }
  }

  lemma {:induction false} FirstLaw(c: Curve, priv: int, z: nat, nonces: nat -> seq<uint8>,
                                    canonical: Signature -> bool, from: nat, n: nat)
    requires ValidCurve(c) && from <= n
    requires forall j :: 0 <= j < from ==> Skipped(c, priv, z, BeValue(nonces(j)), canonical)
    ensures FirstSigned(c, priv, z, nonces, canonical, n, FirstSignature(c, priv, z, nonces, canonical, from, n))
    decreases n - from
  {
    hide Prime, Attempt, Signs, Skipped, BeValue;
    if from < n {
      var k := BeValue(nonces(from));
      SkippedExact(c, priv, z, k, canonical);
      var a := Attempt(c, priv, z, k, canonical);
      if a.Some? {
        AttemptExact(c, priv, z, k, canonical, a.value);
      } else {
        FirstLaw(c, priv, z, nonces, canonical, from + 1, n);
      }
    }
  }

  /** 0 and the signature of the first usable nonce, or -1 when all 10000 are unusable. */
  method SignDigest(c: Curve, order: array<uint32>, orderHalf: array<uint32>, privKey: seq<uint8>, digest: seq<uint8>,
                    nonces: nat -> seq<uint8>, blinds: nat -> int, canonical: Signature -> bool, sig: array<uint8>)
    returns (res: int, recid: nat)
    requires ValidCurve(c) && Stored(c, order) && Num(orderHalf) && Val(orderHalf) == c.order / 2
    requires |privKey| == 32 && |digest| == 32 && sig.Length == 64
    requires forall i :: |nonces(i)| == 32
    requires forall i :: 0 < blinds(i) < c.order
    modifies sig
    ensures res == 0 || res == -1
    ensures var first := FirstSignature(c, BeValue(privKey), BeValue(digest), nonces, canonical, 0, MAX_TRIES);
      && (res == 0 <==> first.Some?)
      && (res == 0 ==> first.value == Signature(BeValue(sig[..32]), BeValue(sig[32..64]), recid))
    ensures var out := Signature(BeValue(sig[..32]), BeValue(sig[32..64]), recid);
      FirstSigned(c, BeValue(privKey), BeValue(digest), nonces, canonical, 10000, if res == 0 then Some(out) else None)
  {
    hide Value, Prime, BeValue, Attempt, FirstSigned, Skipped;
    FirstLaw(c, BeValue(privKey), BeValue(digest), nonces, canonical, 0, MAX_TRIES);
    var z := new uint32[LIMBS];
    ReadBe(digest, z);
    ghost var first := FirstSignature(c, BeValue(privKey), BeValue(digest), nonces, canonical, 0, MAX_TRIES);
    for i := 0 to MAX_TRIES
      invariant Num(z) && Val(z) == BeValue(digest)
      invariant first == FirstSignature(c, BeValue(privKey), BeValue(digest), nonces, canonical, i, MAX_TRIES)
    {
      var ok;
      ok, recid := SignAttempt(c, order, orderHalf, privKey, z, nonces(i), blinds(i), canonical, sig);
      if ok {
        return 0, recid;
      }
    }
    res, recid := -1, 0;
  }

  lemma {:induction false} FirstIsAttempt(c: Curve, priv: int, z: int, nonces: nat -> seq<uint8>,
                                          canonical: Signature -> bool, from: nat, n: nat) returns (i: nat)
    requires Prime(c.order) && FirstSignature(c, priv, z, nonces, canonical, from, n).Some?
    ensures from <= i < n
    ensures Attempt(c, priv, z, BeValue(nonces(i)), canonical) == FirstSignature(c, priv, z, nonces, canonical, from, n)
    decreases n - from
  {
    hide Prime, Attempt;
    if Attempt(c, priv, z, BeValue(nonces(from)), canonical).Some? {
      i := from;
    } else {
      i := FirstIsAttempt(c, priv, z, nonces, canonical, from + 1, n);
    }
  }

  // ---------------------------------------------------------------- verification

  /** u1 + u2 * d, as the three products and the point sum compute it. */
  lemma RecombinedPoint(z: int, s: int, w: int, r: int, d: int, u1: int, u2: int, n: int)
    requires n > 0 && Cong(u1, w * z, n) && Cong(u2, r * w, n)
    ensures (u2 * d % n + u1) % n == (z * w + r * w * d) % n
  {
    CongMod(u2 * d, n);
    CongScale(u2, r * w, d, n);
    CongTransitive(u2 * d % n, u2 * d, r * w * d, n);
    CongAdd(u2 * d % n, r * w * d, u1, w * z, n);
    assert w * z == z * w;
  }

  /** s = s^-1, then z = z * s and s = r * s, all modulo the order: u1 and u2. */
  method Recombine(order: array<uint32>, r: array<uint32>, s: array<uint32>, z: array<uint32>)
    requires Num(order) && Modulus(order[..]) && Val(order) < TWO256 && Prime(Val(order)) && Val(order) % 2 == 1
    requires Num(r) && 0 <= Val(r) < Val(order) && Num(s) && 0 < Val(s) < Val(order)
    requires Num(z) && 0 <= Val(z) < TWO256
    requires order != s && order != z && s != z && r != s && r != z
    modifies s, z
    ensures old(Val(s)) % Val(order) != 0
    ensures Num(s) && 0 <= Val(s) < Val(order) && Num(z) && 0 <= Val(z) < Val(order)
    ensures Cong(Val(z), InverseMod(old(Val(s)), Val(order)) * old(Val(z)), Val(order))
    ensures Cong(Val(s), Val(r) * InverseMod(old(Val(s)), Val(order)), Val(order))
  {
    hide Value, Weight, Pow, Cong, Prime, Coprime;
    ghost var n, rv, sv, zv := Val(order), Val(r), Val(s), Val(z);
    SmallModulus(sv, n);
    PrimeCoprime(n, sv);
    InverseFast(s, order);
    ghost var w := Val(s);
    InverseUnique(sv, w, n);
    ProductFits(w, zv);
    Multiply(s, z, order);
    ghost var z1 := Val(z);
    Mod(z, order);
    ProductFits(rv, w);
    Multiply(r, s, order);
    ghost var s1 := Val(s);
    Mod(s, order);
    ModRange(z1, n);
    ModRange(s1, n);
    CongMod(z1, n);
    CongTransitive(Val(z), z1, w * zv, n);
    CongMod(s1, n);
    CongTransitive(Val(s), s1, rv * w, n);
  }

  /** Verdict, spelled out in the order in which the code decides. */
  lemma VerdictCases(c: Curve, pub: int, r: nat, s: nat, z: nat)
    requires Prime(c.order)
    ensures var v := Verdict(c, Some(pub), r, s, z);
      if z == 0 then v == 3
      else if r == 0 || s == 0 || r >= c.order || s >= c.order then v == 2
      else
        && s % c.order != 0
        && var w := InverseMod(s, c.order);
          v == PointVerdict(c, (z * w + r * w * pub) % c.order, r)
  {
    if 0 < s < c.order {
      SmallModulus(s, c.order);
    }
  }

  lemma UnreadableKey(c: Curve, r: nat, s: nat, z: nat)
    requires Prime(c.order)
    ensures Verdict(c, None, r, s, z) == 1
  {}

  /** The final comparison, given the multiple of the base point that was recombined. */
  function PointVerdict(c: Curve, e: nat, r: nat): int
    requires c.order > 0
  {
    if e == 0 then 4 else if c.xOf(e) % c.order != r then 5 else 0
  }

  /** x modulo the order against r, unless the point is infinity. */
  method ComparePoint(c: Curve, order: array<uint32>, e: nat, r: array<uint32>) returns (result: int)
    requires ValidCurve(c) && Stored(c, order) && e < c.order && Num(r) && 0 <= Val(r) < c.order
    ensures result == PointVerdict(c, e, Val(r))
  {
    hide Value, Weight, Cong, Prime, ValidCurve;
    OrderIsModulus(c, order[..]);
    if e == 0 {
      return 4;
    }
    CoordinateRange(c, e);
    var x := new uint32[LIMBS];
    StoreInt(c.xOf(e), x);
    Mod(x, order);
    ModRange(c.xOf(e), c.order);
    var same := IsEqual(x, r);
    result := if same then 0 else 5;
  }

  lemma ScalarCoprime(e: int, c: Curve)
    requires ValidCurve(c) && 0 < e < c.order
    ensures Coprime(e, c.order)
  {
    DivUnique(e, c.order, 0, e);
    PrimeCoprime(c.order, e);
  }

  /** All verdicts, each by what it means. */
  ghost predicate Judged(c: Curve, pub: Option<int>, r: nat, s: nat, z: nat, v: int)
    requires c.order > 0
  {
    if pub.None? then v == 1
    else if z == 0 then v == 3
    else if r == 0 || r >= c.order || s == 0 || s >= c.order then v == 2
    else
      && (exists k: nat :: Solves(c, pub.value, r, s, z, k))
      && forall k: nat :: Solves(c, pub.value, r, s, z, k) ==>
        v == if k == 0 then 4 else if c.xOf(k) % c.order == r then 0 else 5
  }

  lemma VerdictJudged(c: Curve, pub: Option<int>, r: nat, s: nat, z: nat)
    requires Prime(c.order)
    ensures Judged(c, pub, r, s, z, Verdict(c, pub, r, s, z))
  {
    hide Prime, Solves;
    if pub.Some? && z != 0 && 0 < r < c.order && 0 < s < c.order {
      var l := SolutionUnique(c, pub.value, r, s, z);
      forall k: nat | Solves(c, pub.value, r, s, z, k)
        ensures Verdict(c, pub, r, s, z) == if k == 0 then 4 else if c.xOf(k) % c.order == r then 0 else 5
      {
        VerdictLaw(c, pub.value, r, s, z, k);
      }
    }
  }

  /** Returns 0 exactly when the signature is valid, and otherwise the source's error codes. */
  method VerifyDigest(c: Curve, order: array<uint32>, pubKey: Option<int>, sig: seq<uint8>, digest: seq<uint8>)
    returns (result: int)
    requires ValidCurve(c) && Stored(c, order) && |sig| == 64 && |digest| == 32
    requires pubKey.Some? ==> 0 < pubKey.value < c.order
    ensures result == Verdict(c, pubKey, BeValue(sig[..32]), BeValue(sig[32..64]), BeValue(digest))
    ensures Judged(c, pubKey, BeValue(sig[..32]), BeValue(sig[32..64]), BeValue(digest), result)
  {
    hide Value, Weight, Pow, Cong, Prime, Coprime, BeValue, ValidCurve, Verdict, PointVerdict, Judged;
    OrderIsModulus(c, order[..]);
    VerdictJudged(c, pubKey, BeValue(sig[..32]), BeValue(sig[32..64]), BeValue(digest));
    var r, s, z := new uint32[LIMBS], new uint32[LIMBS], new uint32[LIMBS];
    result := 0;
    if pubKey.None? {
      UnreadableKey(c, BeValue(sig[..32]), BeValue(sig[32..64]), BeValue(digest));
      return 1;
    }
    var pub := pubKey.value;
    ReadBe(sig[..32], r);
    ReadBe(sig[32..64], s);
    ReadBe(digest, z);
    ghost var n, rv, sv, zv := c.order, Val(r), Val(s), Val(z);
    VerdictCases(c, pub, rv, sv, zv);
    var rZero := IsZero(r);
    var sZero := IsZero(s);
    var rLess := IsLess(r, order);
    var sLess := IsLess(s, order);
    if rZero || sZero || !rLess || !sLess {
      result := 2;
    }
    var zZero := IsZero(z);
    if zZero {
      result := 3;
    }
    if result != 0 {
      return;
    }
    Recombine(order, r, s, z);
    ghost var u1, u2, w := Val(z), Val(s), InverseMod(sv, n);
    RecombinedPoint(zv, sv, w, rv, pub, u1, u2, n);
    DivUnique(u1, n, 0, u1);
    assert u1 * 1 == u1;
    OneCoprime(n);
    var res := PointMultiply(order, z, 1);
    ScalarCoprime(pub, c);
    var q := PointMultiply(order, s, pub);
    var modulus := BnToInt(order);
    res := PointAdd(q, res, modulus);
    result := ComparePoint(c, order, res, r);
  }

  /** Signing and then verifying with the matching key succeeds, and s is in the lower half. */
  method SignThenVerify(c: Curve, order: array<uint32>, orderHalf: array<uint32>, privKey: seq<uint8>,
                        digest: seq<uint8>, nonces: nat -> seq<uint8>, blinds: nat -> int,
                        canonical: Signature -> bool, sig: array<uint8>)
    returns (res: int, recid: nat, verdict: int)
    requires ValidCurve(c) && Stored(c, order) && Num(orderHalf) && Val(orderHalf) == c.order / 2
    requires |privKey| == 32 && 0 < BeValue(privKey) < c.order
    requires |digest| == 32 && BeValue(digest) != 0 && sig.Length == 64
    requires forall i :: |nonces(i)| == 32
    requires forall i :: 0 < blinds(i) < c.order
    modifies sig
    ensures res == 0 ==> verdict == 0 && BeValue(sig[32..64]) <= c.order / 2
  {
    res, recid := SignDigest(c, order, orderHalf, privKey, digest, nonces, blinds, canonical, sig);
    var d := BeValue(privKey);
    verdict := VerifyDigest(c, order, Some(d), sig[..], digest);
    if res == 0 {
      ghost var i := FirstIsAttempt(c, d, BeValue(digest), nonces, canonical, 0, MAX_TRIES);
      SignedVerifies(c, d, BeValue(digest), BeValue(nonces(i)), canonical);
      assert sig[..][..32] == sig[..32] && sig[..][32..64] == sig[32..64];
    }
  }
}
