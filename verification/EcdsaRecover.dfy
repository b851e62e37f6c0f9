/** Recovering the public key from a signature and its recovery byte. */
module EcdsaRecover {
  import opened ModArith
  import opened Limbs
  import opened Bignum
  import opened Multiplication
  import opened Inversion
  import opened ByteOrder
  import opened ScalarMultiply
  import opened Wrappers
  import opened Ecdsa

  /** uncompress_coords and validation: the point with this x and this parity of y, as a multiple of the base point. */
  type Lift = (nat, nat) -> Option<nat>

  ghost predicate ValidLift(c: Curve, lift: Lift) {
    && (forall x, odd :: lift(x, odd).Some? ==>
      0 < lift(x, odd).value < c.order && c.xOf(lift(x, odd).value) == x && c.yOf(lift(x, odd).value) % 2 == odd)
    && forall e :: 0 < e < c.order ==> lift(c.xOf(e), c.yOf(e) % 2) == Some(e)
  }

  /** x before it was reduced modulo the order. */
  function NonceX(c: Curve, r: nat, recid: nat): nat {
    if recid / 2 % 2 == 1 then r + c.order else r
  }

  /** What recovery gives: the one key for which the point is the solution of the signature equation. */
  ghost predicate Recovered(c: Curve, lift: Lift, r: nat, s: nat, z: nat, recid: nat, pub: Option<nat>)
    requires c.order > 0
  {
    var x := NonceX(c, r, recid);
    if !(0 < r < c.order && 0 < s < c.order) || (recid / 2 % 2 == 1 && x >= c.prime) || lift(x, recid % 2).None? then
      pub.None?
    else
      pub.Some? && pub.value < c.order && Solves(c, pub.value, r, s, z, lift(x, recid % 2).value)
  }

  /** (s * k - z) / r solves the equation for the key. */
  lemma KeyFromNonce(r: int, ri: int, s: int, k: int, z: int, e: int, e1: int, s1: int, pub: int, n: int)
    requires n > 0 && Cong(r * ri, 1, n) && Cong(e, -z, n)
    requires Cong(e1, ri * e, n) && Cong(s1, ri * s, n) && Cong(pub, s1 * k + e1, n)
    ensures Cong(s * k, r * pub + z, n)
  {
    hide Cong;
    // pub = ri * (s * k + e)
    CongScale(s1, ri * s, k, n);
    CongAdd(s1 * k, ri * s * k, e1, ri * e, n);
    CongTransitive(pub, s1 * k + e1, ri * s * k + ri * e, n);
    var m := s * k + e;
    assert ri * s * k + ri * e == ri * m by {
      assert ri * (s * k) == ri * s * k;
    }
    CongScale(pub, ri * m, r, n);
    CongScale(r * ri, 1, m, n);
    assert pub * r == r * pub && ri * m * r == r * ri * m && 1 * m == m;
    CongTransitive(r * pub, r * ri * m, m, n);
    // and e = -z
    CongSelf(s * k, n);
    CongSelf(z, n);
    CongAdd(s * k, s * k, e, -z, n);
    CongTransitive(r * pub, m, s * k - z, n);
    CongAdd(r * pub, s * k - z, z, z, n);
    CongSymmetric(r * pub + z, s * k, n);
  }

  /** The negative of the digest, modulo the order. */
  method NegatedDigest(c: Curve, order: array<uint32>, digest: seq<uint8>) returns (e: array<uint32>)
    requires ValidCurve(c) && Stored(c, order) && |digest| == 32
    ensures fresh(e) && Num(e) && 0 < Val(e) <= c.order && Cong(Val(e), 0 - BeValue(digest), c.order)
  {
    hide Value, Weight, Cong, Prime, BeValue;
    e := new uint32[LIMBS];
    ReadBe(digest, e);
    ghost var z, n := Val(e), c.order;
    Mod(e, order);
    ModRange(z, n);
    PrimesFit();
    SmallDifference(n, Val(e), Weight(LIMBS));
    CongMod(z, n);
    CongNeg(z % n, z, n);
    CongShift(-(z % n), 1, n);
    Subtract(order, e, e);
    CongTransitive(Val(e), -(z % n), -z, n);
  }

  /** The factors of the two points, in place. */
  method Factors(order: array<uint32>, r: array<uint32>, s: array<uint32>, e: array<uint32>) returns (ghost ri: int)
    requires Num(order) && Modulus(order[..]) && Val(order) < TWO256 && Prime(Val(order)) && Val(order) % 2 == 1
    requires Num(r) && 0 < Val(r) < Val(order) && Num(s) && 0 < Val(s) < Val(order)
    requires Num(e) && 0 < Val(e) <= Val(order)
    requires order != r && order != s && order != e && r != s && r != e && s != e
    modifies r, s, e
    ensures Num(s) && 0 <= Val(s) < Val(order) && Num(e) && 0 <= Val(e) < Val(order)
    ensures Cong(old(Val(r)) * ri, 1, Val(order))
    ensures Cong(Val(e), ri * old(Val(e)), Val(order)) && Cong(Val(s), ri * old(Val(s)), Val(order))
  {
    hide Value, Weight, Pow, Cong, Prime, Coprime;
    ghost var n, rv, sv, ev := Val(order), Val(r), Val(s), Val(e);
    SmallModulus(rv, n);
    PrimeCoprime(n, rv);
    InverseFast(r, order);
    ri := Val(r);
    ProductFits(ri, ev);
    Multiply(r, e, order);
    ghost var e1 := Val(e);
    Mod(e, order);
    ProductFits(ri, sv);
    Multiply(r, s, order);
    ghost var s1 := Val(s);
    Mod(s, order);
    ModRange(e1, n);
    ModRange(s1, n);
    CongMod(e1, n);
    CongTransitive(Val(e), e1, ri * ev, n);
    CongMod(s1, n);
    CongTransitive(Val(s), s1, ri * sv, n);
  }

  /** The point that the signer multiplied out, from r and the recovery byte. */
  method NonceFrom(c: Curve, order: array<uint32>, prime: array<uint32>, r: array<uint32>, recid: nat, lift: Lift)
    returns (k: Option<nat>)
    requires ValidCurve(c) && Stored(c, order) && Num(prime) && Val(prime) == c.prime
    requires Num(r) && 0 <= Val(r) < c.order
    ensures var x := NonceX(c, Val(r), recid);
      k == if recid / 2 % 2 == 1 && x >= c.prime then None else lift(x, recid % 2)
  {
    hide Value, Weight, Prime;
    var x := new uint32[LIMBS];
    forall i | 0 <= i < LIMBS {
      x[i] := r[i];
    }
    assert x[..] == r[..] && Val(x) == Val(r);
    if recid / 2 % 2 == 1 {
      PrimesFit();
      Add(x, order);
      var less := IsLess(x, prime);
      if !less {
        return None;
      }
    }
    ValueBound(x[..]);
    var v := BnToInt(x);
    k := lift(v, recid % 2);
  }

  /** (s * k - z) / r, as a sum of two points. */
  method KeyOfNonce(c: Curve, order: array<uint32>, r: array<uint32>, s: array<uint32>, digest: seq<uint8>, k: nat)
    returns (pub: nat)
    requires ValidCurve(c) && Stored(c, order) && |digest| == 32 && 0 < k < c.order
    requires Num(r) && 0 < Val(r) < c.order && Num(s) && 0 < Val(s) < c.order
    requires order != r && order != s && r != s
    modifies r, s
    ensures pub < c.order && Solves(c, pub, old(Val(r)), old(Val(s)), BeValue(digest), k)
  {
    hide Value, Weight, Pow, Cong, Prime, Coprime, BeValue;
    ghost var n, rv, sv, z := c.order, Val(r), Val(s), BeValue(digest);
    OrderIsModulus(c, order[..]);
    var e := NegatedDigest(c, order, digest);
    ghost var ev := Val(e);
    ghost var ri := Factors(order, r, s, e);
    ScalarCoprime(k, c);
    var cp := PointMultiply(order, s, k);
    OneCoprime(n);
    var cp2 := PointMultiply(order, e, 1);
    var modulus := BnToInt(order);
    pub := PointAdd(cp2, cp, modulus);
    ghost var e1, s1 := Val(e), Val(s);
    assert e1 * 1 == e1;
    SumMod(e1, s1 * k, n);
    CongMod(e1 + s1 * k, n);
    KeyFromNonce(rv, ri, sv, k, z, ev, e1, s1, pub, n);
  }

  /** ecdsa_recover_pub_from_sig; the result is none where the code returns 1. */
  method RecoverPub(c: Curve, order: array<uint32>, prime: array<uint32>, sig: seq<uint8>, digest: seq<uint8>,
                    recid: nat, lift: Lift) returns (pub: Option<nat>)
    requires ValidCurve(c) && Stored(c, order) && Num(prime) && Val(prime) == c.prime && ValidLift(c, lift)
    requires |sig| == 64 && |digest| == 32
    ensures Recovered(c, lift, BeValue(sig[..32]), BeValue(sig[32..64]), BeValue(digest), recid, pub)
  {
    hide Value, Weight, Pow, Cong, Prime, Coprime, BeValue, ValidLift;
    OrderIsModulus(c, order[..]);
    var r, s := new uint32[LIMBS], new uint32[LIMBS];
    ReadBe(sig[..32], r);
    ReadBe(sig[32..64], s);
    ghost var rv := Val(r);
    var rLess := IsLess(r, order);
    var rZero := IsZero(r);
    if !rLess || rZero {
      return None;
    }
    var sLess := IsLess(s, order);
    var sZero := IsZero(s);
    if !sLess || sZero {
      return None;
    }
    var k := NonceFrom(c, order, prime, r, recid, lift);
    if k.None? {
      return None;
    }
    LiftRange(c, lift, NonceX(c, rv, recid), recid % 2);
    var key := KeyOfNonce(c, order, r, s, digest, k.value);
    pub := Some(key);
  }

  lemma LiftRange(c: Curve, lift: Lift, x: nat, odd: nat)
    requires ValidLift(c, lift) && lift(x, odd).Some?
    ensures 0 < lift(x, odd).value < c.order
  {}

  lemma CancelSummand(a: int, b: int, z: int, n: int)
    requires n > 0 && Cong(a + z, b + z, n)
    ensures Cong(a, b, n)
  {
    hide Cong;
    CongSelf(-z, n);
    CongAdd(a + z, b + z, -z, -z, n);
  }

  /** Only one key solves the equation for a given point. */
  lemma KeyUnique(c: Curve, d: nat, d': nat, r: nat, s: nat, z: nat, k: nat)
    requires Prime(c.order) && 0 < r < c.order && d < c.order && d' < c.order
    requires Solves(c, d, r, s, z, k) && Solves(c, d', r, s, z, k)
    ensures d == d'
  {
    hide Cong, Prime;
    var n := c.order;
    CongSymmetric(s * k, r * d + z, n);
    CongTransitive(r * d + z, s * k, r * d' + z, n);
    CancelSummand(r * d, r * d', z, n);
    SmallModulus(r, n);
    CancelUnit(r, InverseMod(r, n), d, d', n);
    CongSmall(d, d', n);
  }

  lemma OpenedX(c: Curve, r: nat, recid: nat, k: nat)
    requires ValidCurve(c) && 0 < k < c.order && recid < 4 && c.xOf(k) == r + recid / 2 * c.order
    ensures NonceX(c, r, recid) == c.xOf(k) < c.prime
  {
    hide Prime;
    assert OppositePoints(c, k);
  }

  lemma LiftBack(c: Curve, lift: Lift, k: nat)
    requires ValidLift(c, lift) && 0 < k < c.order
    ensures lift(c.xOf(k), c.yOf(k) % 2) == Some(k)
  {}

  /** Recovering from a signature that opens to a point gives the key that it was made for. */
  lemma RecoveredKey(c: Curve, lift: Lift, d: nat, z: nat, sig: Signature, k: nat, pub: Option<nat>)
    requires ValidCurve(c) && ValidLift(c, lift) && 0 < d < c.order
    requires 0 < sig.r < c.order && 0 < sig.s < c.order && sig.recid < 4 && Opens(c, d, z, sig, k)
    requires Recovered(c, lift, sig.r, sig.s, z, sig.recid, pub)
    ensures pub == Some(d)
  {
    hide Cong, Prime, Solves, NonceX, ValidLift;
    OpenedX(c, sig.r, sig.recid, k);
    LiftBack(c, lift, k);
    KeyUnique(c, d, pub.value, sig.r, sig.s, z, k);
  }

  /** Signing and then recovering gives the signer's key. */
  method SignThenRecover(c: Curve, order: array<uint32>, orderHalf: array<uint32>, prime: array<uint32>,
                         privKey: seq<uint8>, digest: seq<uint8>, nonces: nat -> seq<uint8>, blinds: nat -> int,
                         canonical: Signature -> bool, lift: Lift, sig: array<uint8>)
    returns (res: int, pub: Option<nat>)
    requires ValidCurve(c) && Stored(c, order) && Num(orderHalf) && Val(orderHalf) == c.order / 2
    requires Num(prime) && Val(prime) == c.prime && ValidLift(c, lift)
    requires |privKey| == 32 && 0 < BeValue(privKey) < c.order && |digest| == 32 && sig.Length == 64
    requires forall i :: |nonces(i)| == 32
    requires forall i :: 0 < blinds(i) < c.order
    modifies sig
    ensures res == 0 ==> pub == Some(BeValue(privKey))
  {
    hide Value, Prime, BeValue, ValidLift, ValidCurve, Recovered, Opens, Solves, Skipped;
    var recid;
    res, recid := SignDigest(c, order, orderHalf, privKey, digest, nonces, blinds, canonical, sig);
    pub := RecoverPub(c, order, prime, sig[..], digest, recid, lift);
    if res == 0 {
      ghost var out := Signature(BeValue(sig[..32]), BeValue(sig[32..64]), recid);
      assert sig[..][..32] == sig[..32] && sig[..][32..64] == sig[32..64];
      SignedKey(c, lift, BeValue(privKey), BeValue(digest), nonces, canonical, out, pub);
    }
  }

  lemma SignedKey(c: Curve, lift: Lift, d: nat, z: nat, nonces: nat -> seq<uint8>, canonical: Signature -> bool,
                  sig: Signature, pub: Option<nat>)
    requires ValidCurve(c) && ValidLift(c, lift) && 0 < d < c.order
    requires FirstSigned(c, d, z, nonces, canonical, 10000, Some(sig))
    requires Recovered(c, lift, sig.r, sig.s, z, sig.recid, pub)
    ensures pub == Some(d)
  {
    hide Prime, BeValue, ValidLift, Recovered, Opens, Skipped;
    var i :| 0 <= i < 10000 && Signs(c, d, z, BeValue(nonces(i)), sig);
    var k := BeValue(nonces(i));
    RecoveredKey(c, lift, d, z, sig, if Opens(c, d, z, sig, k) then k else c.order - k, pub);
  }
}
