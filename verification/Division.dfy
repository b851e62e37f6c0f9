/** Division of a number by a small one, limb by limb and in place if wanted. */
module Division {
  import opened ModArith
  import opened Limbs
  import opened Bignum

  const DIVISOR_LIMIT: int := 61304

  /** r * BASE + x by way of the quotient and remainder of BASE, without leaving 32 bits. */
  lemma LimbStep(r: int, x: int, d: int)
    requires 1 <= d < DIVISOR_LIMIT && 0 <= r < d && 0 <= x < BASE
    ensures var acc := r * (BASE % d) + x;
      && 0 <= acc < 0x1_0000_0000
      && var q := r * (BASE / d) + acc / d;
        0 <= q < BASE && r * BASE + x == q * d + acc % d && 0 <= acc % d < d
  {
    var b, m := BASE / d, BASE % d;
    assert BASE == b * d + m;
    assert 0 <= r * m <= (DIVISOR_LIMIT - 2) * (DIVISOR_LIMIT - 2) by {
      ProductBound(r, m, DIVISOR_LIMIT - 1);
    }
    var acc := r * m + x;
    var q := r * b + acc / d;
    assert acc == acc / d * d + acc % d;
    assert r * BASE == r * b * d + r * m by {
      assert r * (b * d + m) == r * (b * d) + r * m;
      assert r * (b * d) == r * b * d;
    }
    assert q * d == r * b * d + acc / d * d;
    MulMonotone(r, d - 1, BASE);
    QuotientRange(q, d, acc % d, BASE);
  }

  lemma NextLimb(high: int, qhigh: int, r: int, x: int, q: int, r': int, d: int)
    requires qhigh * d + r == high && r * BASE + x == q * d + r'
    ensures (q + BASE * qhigh) * d + r' == x + BASE * high
  {}

  /** q = x / d, and the remainder; q may be x. */
  method LongDivision(x: array<uint32>, d: uint32, q: array<uint32>) returns (r: uint32)
    requires Num(x) && q.Length == LIMBS && 1 <= d < DIVISOR_LIMIT
    modifies q
    ensures Num(q) && Val(q) == old(Val(x)) / d && r == old(Val(x)) % d
  {
    hide Value;
    ghost var xs := x[..];
    var top := x[LIMBS - 1];
    TopLimb(xs);
    assert top == top / d * d + top % d;
    r := top % d;
    ModLe(top, d);
    MulMonotone(1, d, BASE);
    QuotientRange(top / d, d, top % d, BASE);
    q[LIMBS - 1] := top / d;
    TopLimb(q[..]);
    for i := LIMBS - 1 downto 0
      invariant r < d
      invariant forall j :: 0 <= j < i ==> x[j] == xs[j]
      invariant Normalized(q[i..])
      invariant Value(q[i..]) * d + r == Value(xs[i..])
    {
      ghost var qhigh, rhigh := q[i + 1..], r;
      LimbStep(r, xs[i], d);
      var acc: uint32 := r as int * (BASE % d) + x[i];
      q[i] := r as int * (BASE / d) + acc / d;
      r := acc % d;
      assert q[i..][1..] == qhigh && xs[i..][1..] == xs[i + 1..];
      ValueHead(q[i..]);
      ValueHead(xs[i..]);
      NextLimb(Value(xs[i + 1..]), Value(qhigh), rhigh, xs[i], q[i], r, d);
    }
    assert q[0..] == q[..] && xs[0..] == xs;
    DivUnique(Value(xs), d, Value(q[..]), r);
  }

  lemma TopLimb(s: seq<int>)
    requires |s| == LIMBS
    ensures Value(s[LIMBS - 1..]) == s[LIMBS - 1]
  {
    var t := s[LIMBS - 1..];
    ValueHead(t);
    assert t[1..] == [] && t[0] == s[LIMBS - 1];
  }
}
