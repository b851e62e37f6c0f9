/** What a Bech32 checksum says, as polynomial division over GF(32), and the strings of the standards. */
module Bech32Law {
  import opened Bech32

  /** The product in GF(32), where a^5 = a^3 + 1. */
  function Mul(x: byte, y: byte): byte {
    Product(x, Widen(y), 5)
  }

  const GENERATOR: seq<byte> := [1, 29, 22, 20, 21, 29, 18]

  function Nil(n: nat): (z: seq<byte>)
    ensures |z| == n && AllZero(z)
  {
    seq(n, i => 0)
  }

  /** d times the generator. */
  function Scaled(d: byte): (s: seq<byte>)
    ensures |s| == 7
  {
    seq(7, i requires 0 <= i < 7 => Mul(GENERATOR[i], d))
  }

  /** The product of a polynomial and the generator, coefficients from the highest down. */
  function TimesGenerator(q: seq<byte>): (p: seq<byte>)
    ensures |p| == |q| + 6
  {
    if q == [] then Nil(6)
    else
      var n := |q| - 1;
      XorAll(TimesGenerator(q[..n]) + [0], Nil(n) + Scaled(q[n]))
  }

  /** q times the generator, plus r. */
  function ProductPlus(q: seq<byte>, r: seq<byte>): (p: seq<byte>)
    requires |r| == 6
    ensures |p| == |q| + 6
  {
    XorAll(TimesGenerator(q), Nil(|q|) + r)
  }

  /** v, with zeros in front, is q times the generator plus r. */
  ghost predicate Divides(v: seq<byte>, q: seq<byte>, r: seq<byte>) {
    |q| == |v| && |r| == 6 && Symbols(q) && Nil(6) + v == ProductPlus(q, r)
  }

  /** One step of the division: times x, plus c, less the generator times what reached x^6. */
  function NextRemainder(r: seq<byte>, c: byte): (t: seq<byte>)
    requires |r| == 6
    ensures |t| == 6
  {
    [ByteXor(r[1], Mul(29, r[0])), ByteXor(r[2], Mul(22, r[0])), ByteXor(r[3], Mul(20, r[0])),
     ByteXor(r[4], Mul(21, r[0])), ByteXor(r[5], Mul(29, r[0])), ByteXor(c, Mul(18, r[0]))]
  }

  function Rem(v: seq<byte>): (r: seq<byte>)
    ensures |r| == 6
  {
    if v == [] then SIX_ZEROS else NextRemainder(Rem(v[..|v| - 1]), v[|v| - 1])
  }

  // -------------------------------------------------------------- the division

  lemma MulRange(x: byte, y: byte)
    requires x < 32
    ensures Mul(x, y) < 32
  {
    hide ByteXor, BitSet, TimesPower;
    PowerRange(x, 0);
    PowerRange(x, 1);
    PowerRange(x, 2);
    PowerRange(x, 3);
    PowerRange(x, 4);
    ProductRange(x, Widen(y), 5);
  }

  lemma {:induction false} PowerRange(x: byte, j: nat)
    requires x < 32
    ensures TimesPower(x, j) < 32
  {
    if j > 0 {
      PowerRange(x, j - 1);
      StaysSmall(TimesPower(x, j - 1));
    }
  }

  lemma StaysSmall(x: byte)
    requires x < 32
    ensures TimesA(x) < 32
  {}

  lemma {:induction false} ProductRange(x: byte, c0: word, n: nat)
    requires x < 32
    ensures Product(x, c0, n) < 32
  {
    hide ByteXor, BitSet;
    if n > 0 {
      ProductRange(x, c0, n - 1);
      PowerRange(x, n - 1);
      ByteDifference(Product(x, c0, n - 1), if BitSet(c0, n - 1) then TimesPower(x, n - 1) else 0);
    }
  }

  /** 1 is the unit, and 0 annihilates. */
  lemma MulOne(d: byte)
    requires d < 32
    ensures Mul(1, d) == d
  {
    OnePowers();
    var w := Widen(d);
    hide TimesPower;
    assert Product(1, w, 0) == 0;
    assert Product(1, w, 1) == if w & 1 != 0 then 1 else 0;
    assert Product(1, w, 2) == Product(1, w, 1) ^ (if w & 2 != 0 then 2 else 0);
    assert Product(1, w, 3) == Product(1, w, 2) ^ (if w & 4 != 0 then 4 else 0);
    assert Product(1, w, 4) == Product(1, w, 3) ^ (if w & 8 != 0 then 8 else 0);
    assert Product(1, w, 5) == Product(1, w, 4) ^ (if w & 16 != 0 then 16 else 0);
    BitsTogether(d);
  }

  lemma OnePowers()
    ensures TimesPower(1, 0) == 1 && TimesPower(1, 1) == 2 && TimesPower(1, 2) == 4
    ensures TimesPower(1, 3) == 8 && TimesPower(1, 4) == 16
  {
    assert TimesPower(1, 1) == TimesA(1);
    assert TimesPower(1, 2) == TimesA(2);
    assert TimesPower(1, 3) == TimesA(4);
    assert TimesPower(1, 4) == TimesA(8);
  }

  lemma BitsTogether(d: byte)
    requires d < 32
    ensures var w := d as word;
      (if w & 1 != 0 then 1 as byte else 0) ^ (if w & 2 != 0 then 2 else 0) ^ (if w & 4 != 0 then 4 else 0)
      ^ (if w & 8 != 0 then 8 else 0) ^ (if w & 16 != 0 then 16 else 0) == d
  {}

  lemma {:induction false} MulZero(x: byte, n: nat)
    requires n <= 5
    ensures Product(x, 0, n) == 0
  {
    if n > 0 {
      MulZero(x, n - 1);
    }
  }

  lemma ByteUnit(a: byte)
    ensures ByteXor(a, 0) == a && ByteXor(0, a) == a
  {}

  lemma ByteAssociative(a: byte, b: byte, c: byte)
    ensures ByteXor(ByteXor(a, b), c) == ByteXor(a, ByteXor(b, c))
  {}

  lemma ByteMoves(a: byte, b: byte, c: byte)
    ensures a == ByteXor(b, c) <==> c == ByteXor(a, b)
  {
    if a == ByteXor(b, c) {
      ByteUndo(b, c);
    }
    if c == ByteXor(a, b) {
      ByteUndo(b, a);
    }
  }

  lemma ByteUndo(b: byte, c: byte)
    ensures ByteXor(ByteXor(b, c), b) == c && ByteXor(b, ByteXor(c, b)) == c
  {}

  lemma RemRange(v: seq<byte>)
    requires Symbols(v)
    ensures Symbols(Rem(v))
  {
    hide Mul, ByteXor;
    if v != [] {
      var r, c := Rem(v[..|v| - 1]), v[|v| - 1];
      RemRange(v[..|v| - 1]);
      MulRange(29, r[0]);
      MulRange(22, r[0]);
      MulRange(20, r[0]);
      MulRange(21, r[0]);
      MulRange(18, r[0]);
      ByteDifference(r[1], Mul(29, r[0]));
      ByteDifference(r[2], Mul(22, r[0]));
      ByteDifference(r[3], Mul(20, r[0]));
      ByteDifference(r[4], Mul(21, r[0]));
      ByteDifference(r[5], Mul(29, r[0]));
      ByteDifference(c, Mul(18, r[0]));
    }
  }

  /** What the product with one more coefficient d leaves at each place, in the last seven places. */
  function Window(d: byte, r: seq<byte>): (w: seq<byte>)
    requires |r| == 6
    ensures |w| == 7
  {
    [Mul(1, d), ByteXor(Mul(29, d), r[0]), ByteXor(Mul(22, d), r[1]), ByteXor(Mul(20, d), r[2]),
     ByteXor(Mul(21, d), r[3]), ByteXor(Mul(29, d), r[4]), ByteXor(Mul(18, d), r[5])]
  }

  /** Entry k, or 0 where there is none. */
  function At(v: seq<byte>, k: int): byte {
    if 0 <= k < |v| then v[k] else 0
  }

  lemma ProductStep(q: seq<byte>, d: byte, r: seq<byte>, k: nat)
    requires |r| == 6 && k < |q| + 7
    ensures At(ProductPlus(q + [d], r), k) == ByteXor(At(TimesGenerator(q), k), At(Window(d, r), k - |q|))
  {
    hide *;
    ProductPlaces(q, d, r, k);
    PlaceSum(d, r, k - |q|);
  }

  lemma ProductPlaces(q: seq<byte>, d: byte, r: seq<byte>, k: nat)
    requires |r| == 6
    ensures At(ProductPlus(q + [d], r), k)
         == ByteXor(At(TimesGenerator(q), k),
                    ByteXor(At(Scaled(d), k - |q|), At(r, k - |q| - 1)))
  {
    hide *;
    ProductUnfold(q, d, r);
    SumPlaces(TimesGenerator(q), Scaled(d), r, |q|, k);
  }

  lemma SumPlaces(t: seq<byte>, g: seq<byte>, r: seq<byte>, n: nat, k: nat)
    requires |r| == 6 && |g| == 7 && |t| == n + 6
    ensures At(XorAll(XorAll(t + [0], Nil(n) + g), Nil(n + 1) + r), k)
         == ByteXor(At(t, k), ByteXor(At(g, k - n), At(r, k - n - 1)))
  {
    hide ByteXor, XorAll, At, Nil;
    ThreeSums(t + [0], Nil(n) + g, Nil(n + 1) + r, k);
    ZeroBehind(t, k);
    BehindZeros(n, g, k);
    BehindZeros(n + 1, r, k);
  }

  lemma ZeroBehind(t: seq<byte>, k: nat)
    ensures At(t + [0], k) == At(t, k)
  {}

  lemma BehindZeros(n: nat, v: seq<byte>, k: nat)
    ensures At(Nil(n) + v, k) == At(v, k - n)
  {}

  lemma ThreeSums(a: seq<byte>, b: seq<byte>, c: seq<byte>, k: nat)
    requires |a| == |b| == |c|
    ensures At(XorAll(XorAll(a, b), c), k) == ByteXor(At(a, k), ByteXor(At(b, k), At(c, k)))
  {
    hide ByteXor;
    ByteUnit(0);
    if k < |a| {
      ByteAssociative(a[k], b[k], c[k]);
    }
  }

  lemma PlaceSum(d: byte, r: seq<byte>, k: int)
    requires |r| == 6 && k < 7
    ensures ByteXor(At(Scaled(d), k), At(r, k - 1)) == At(Window(d, r), k)
  {
    hide Mul, ByteXor;
    ByteUnit(0);
    ByteUnit(Mul(1, d));
  }

  lemma SumAt(v: seq<byte>, w: seq<byte>, k: nat)
    requires k < |v| == |w|
    ensures XorAll(v, w)[k] == ByteXor(v[k], w[k])
  {}

  lemma ProductUnfold(q: seq<byte>, d: byte, r: seq<byte>)
    requires |r| == 6
    ensures var n := |q|;
      ProductPlus(q + [d], r)
      == XorAll(XorAll(TimesGenerator(q) + [0], Nil(n) + Scaled(d)), Nil(n + 1) + r)
  {
    hide Scaled, Nil, XorAll;
    assert (q + [d])[..|q|] == q;
  }

  /** Dividing one coefficient further: the quotient grows by what stands at x^5. */
  lemma DivideStep(v: seq<byte>, c: byte, q: seq<byte>, d: byte, s: seq<byte>, r: seq<byte>)
    requires |q| == |v| && |s| == |r| == 6 && d < 32 && Symbols(q)
    requires s == Window(d, r)[..6] && c == Window(d, r)[6]
    ensures Divides(v + [c], q + [d], r) <==> Divides(v, q, s)
  {
    hide Mul, ByteXor, TimesGenerator, Window;
    var n := |v|;
    var left, right := Nil(6) + (v + [c]), ProductPlus(q + [d], r);
    var left', right' := Nil(6) + v, ProductPlus(q, s);
    forall k | 0 <= k < n + 6
      ensures left[k] == left'[k] && right[k] == right'[k]
    {
      ProductStep(q, d, r, k);
      assert (Nil(n) + s)[k] == At(Window(d, r), k - n);
      SumAt(TimesGenerator(q), Nil(n) + s, k);
    }
    ProductStep(q, d, r, n + 6);
    ByteUnit(c);
    assert right[n + 6] == c == left[n + 6];
    assert left == left[..n + 6] + [c] && right == right[..n + 6] + [c];
    assert left[..n + 6] == left' && right[..n + 6] == right';
  }

  /** The last six places and the one behind them are a step of the division. */
  lemma WindowStep(s: seq<byte>, c: byte, r: seq<byte>)
    requires |s| == |r| == 6 && s[0] < 32
    ensures s == Window(s[0], r)[..6] && c == Window(s[0], r)[6] <==> r == NextRemainder(s, c)
  {
    hide Mul, ByteXor, Window, NextRemainder;
    var w, t := Window(s[0], r), NextRemainder(s, c);
    MulOne(s[0]);
    FirstPlace(s[0], r);
    PlaceStep(s, c, r, 5);
    if r == t {
      forall i | 0 <= i < 6
        ensures w[i] == s[i]
      {
        if i > 0 {
          PlaceStep(s, c, r, i - 1);
        }
      }
    }
    if s == w[..6] && c == w[6] {
      forall i | 0 <= i < 6
        ensures r[i] == t[i]
      {
        PlaceStep(s, c, r, i);
        assert i < 5 ==> s[i + 1] == w[..6][i + 1];
      }
    }
  }

  lemma FirstPlace(d: byte, r: seq<byte>)
    requires |r| == 6
    ensures Window(d, r)[0] == Mul(1, d)
  {}

  lemma PlaceStep(s: seq<byte>, c: byte, r: seq<byte>, i: nat)
    requires |s| == |r| == 6 && i < 6
    ensures (if i < 5 then s[i + 1] else c) == Window(s[0], r)[i + 1] <==> r[i] == NextRemainder(s, c)[i]
  {
    hide Mul, ByteXor;
    var m := Mul(GENERATOR[i + 1], s[0]);
    var next := if i < 5 then s[i + 1] else c;
    assert Window(s[0], r)[i + 1] == ByteXor(m, r[i]);
    assert NextRemainder(s, c)[i] == ByteXor(next, m);
    ByteMoves(next, m, r[i]);
  }

  /** There is a quotient that leaves this remainder. */
  lemma {:induction false} QuotientExists(v: seq<byte>) returns (q: seq<byte>)
    requires Symbols(v)
    ensures Divides(v, q, Rem(v))
  {
    hide Mul, ByteXor, Window, NextRemainder;
    if v == [] {
      q := [];
      assert Nil(6) + v == SIX_ZEROS == XorAll(SIX_ZEROS, SIX_ZEROS) by {
        NoDifference();
      }
      assert Nil(0) + SIX_ZEROS == SIX_ZEROS && Nil(6) == SIX_ZEROS;
    } else {
      var n := |v| - 1;
      var q' := QuotientExists(v[..n]);
      var s, r := Rem(v[..n]), Rem(v);
      RemRange(v[..n]);
      WindowStep(s, v[n], r);
      q := q' + [s[0]];
      DivideStep(v[..n], v[n], q', s[0], s, r);
      assert v == v[..n] + [v[n]];
    }
  }

  lemma NoDifference()
    ensures XorAll(SIX_ZEROS, SIX_ZEROS) == SIX_ZEROS
  {
    SelfDifference(SIX_ZEROS);
  }

  /** And no quotient leaves another. */
  lemma {:induction false} RemainderOnly(v: seq<byte>, q: seq<byte>, r: seq<byte>)
    requires Symbols(v) && Divides(v, q, r)
    ensures r == Rem(v)
  {
    hide Mul, ByteXor, NextRemainder;
    if v == [] {
      assert Nil(0) + r == r && Nil(6) + v == SIX_ZEROS && TimesGenerator(q) == SIX_ZEROS;
      forall i | 0 <= i < 6
        ensures r[i] == 0
      {
        assert XorAll(SIX_ZEROS, r)[i] == SIX_ZEROS[i];
        ByteUnit(r[i]);
      }
    } else {
      var n := |v| - 1;
      var q', d := q[..n], q[n];
      var s := Window(d, r)[..6];
      LastPlace(v, q, r);
      assert q == q' + [d] && v == v[..n] + [v[n]];
      DivideStep(v[..n], v[n], q', d, s, r);
      RemainderOnly(v[..n], q', s);
      MulOne(d);
      WindowStep(s, v[n], r);
    }
  }

  lemma LastPlace(v: seq<byte>, q: seq<byte>, r: seq<byte>)
    requires v != [] && Divides(v, q, r)
    ensures v[|v| - 1] == Window(q[|v| - 1], r)[6]
  {
    hide Mul, ByteXor, TimesGenerator, Window;
    var n := |v| - 1;
    assert q == q[..n] + [q[n]];
    ProductStep(q[..n], q[n], r, n + 6);
    ByteUnit(Window(q[n], r)[6]);
    assert (Nil(6) + v)[n + 6] == v[n];
  }

  // ------------------------------------------------------------------ the checksum

  lemma TopIsGroup(c: word)
    requires c < 0x40000000
    ensures Widen(Group(c, 0)) == Top(c) < 32
  {
    assert High(c, 6) == c;
    assert High(c, 5) == c >> 5;
    assert High(c, 4) == (c >> 5) >> 5;
    assert High(c, 3) == ((c >> 5) >> 5) >> 5;
    assert High(c, 2) == (((c >> 5) >> 5) >> 5) >> 5;
    assert High(c, 1) == ((((c >> 5) >> 5) >> 5) >> 5) >> 5;
    FiveShifts(c);
  }

  lemma FiveShifts(c: word)
    requires c < 0x40000000
    ensures (LowGroup(((((c >> 5) >> 5) >> 5) >> 5) >> 5) as word) == c >> 25 < 32
  {}

  /** The remainder that the code computes is that of the division, with 1 as the first coefficient. */
  lemma {:induction false} RemainderIsRem(v: seq<byte>)
    requires Symbols(v)
    ensures Remainder(1, v) < 0x40000000 && Groups(Remainder(1, v)) == Rem([1] + v)
  {
    hide Step, Group, ByteXor, Product, Top, Widen, Rem;
    if v == [] {
      assert [1] + v == [1];
      StartOfDivision();
    } else {
      var n := |v| - 1;
      var c := Remainder(1, v[..n]);
      RemainderIsRem(v[..n]);
      StepRange(c, v[n]);
      TopIsGroup(c);
      RemSnoc([1] + v[..n], v[n]);
      assert [1] + v == [1] + v[..n] + [v[n]];
      StepIsPolynomialStep(c, v[n], 0);
      StepIsPolynomialStep(c, v[n], 1);
      StepIsPolynomialStep(c, v[n], 2);
      StepIsPolynomialStep(c, v[n], 3);
      StepIsPolynomialStep(c, v[n], 4);
      StepIsPolynomialStep(c, v[n], 5);
    }
  }

  lemma RemSnoc(v: seq<byte>, c: byte)
    ensures Rem(v + [c]) == NextRemainder(Rem(v), c)
  {
    assert (v + [c])[..|v|] == v;
  }

  lemma StartOfDivision()
    ensures Groups(1) == [0, 0, 0, 0, 0, 1] == Rem([1])
  {
    MulZero(29, 5);
    MulZero(22, 5);
    MulZero(20, 5);
    MulZero(21, 5);
    MulZero(18, 5);
    assert [1 as byte][..0] == [];
    assert Rem([1]) == NextRemainder(SIX_ZEROS, 1);
    var g: seq<byte> := [0, 0, 0, 0, 0, 1];
    assert Groups(1) == g;
  }

  /** Different numbers have different groups. */
  lemma GroupsDetermine(a: word, b: word)
    requires a < 0x40000000 && b < 0x40000000 && Groups(a) == Groups(b)
    ensures a == b
  {
    hide Group, High;
    GroupsTogether(a, 6);
    GroupsTogether(b, 6);
    assert Groups(a)[..6] == Groups(b)[..6];
    HighAll(a);
    HighAll(b);
  }

  /** The polynomial that a prefix and its symbols stand for. */
  function Polynomial(hrp: seq<byte>, values: seq<byte>): seq<byte> {
    [1] + seq(|hrp|, i requires 0 <= i < |hrp| => hrp[i] / 32) + [0]
    + seq(|hrp|, i requires 0 <= i < |hrp| => hrp[i] % 32) + values
  }

  lemma HalvesOfByte(c: byte)
    ensures HighBits(c) == c / 32 < 32 && LowBits(c) == c % 32 < 32
  {}

  lemma PolynomialIs(hrp: seq<byte>, values: seq<byte>)
    requires Symbols(values)
    ensures Polynomial(hrp, values) == [1] + (ExpandHrp(hrp) + values) && Symbols(ExpandHrp(hrp) + values)
  {
    hide HighBits, LowBits;
    var high := seq(|hrp|, i requires 0 <= i < |hrp| => HighBits(hrp[i]));
    var low := seq(|hrp|, i requires 0 <= i < |hrp| => LowBits(hrp[i]));
    forall i | 0 <= i < |hrp|
      ensures high[i] == hrp[i] / 32 < 32 && low[i] == hrp[i] % 32 < 32
    {
      HalvesOfByte(hrp[i]);
    }
    assert ExpandHrp(hrp) + values == high + [0] + low + values;
    assert seq(|hrp|, i requires 0 <= i < |hrp| => hrp[i] / 32) == high;
    assert seq(|hrp|, i requires 0 <= i < |hrp| => hrp[i] % 32) == low;
    assert Polynomial(hrp, values) == [1] + high + [0] + low + values;
  }

  /** The six coefficients of 0x2bc830a3. */
  lemma MarkGroups()
    ensures Groups(0x2bc830a3) == [21, 28, 16, 12, 5, 3] && EncodingConstant(Bech32m) == 0x2bc830a3
    ensures Groups(1) == [0, 0, 0, 0, 0, 1] && EncodingConstant(Bech32) == 1
  {
    StartOfDivision();
    var g: seq<byte> := [21, 28, 16, 12, 5, 3];
    assert Groups(0x2bc830a3) == g;
  }

  /**
   * A list verifies as Bech32 exactly when its polynomial is a multiple of the generator plus 1, and as
   * Bech32m exactly when it is a multiple plus the polynomial of that encoding.
   */
  lemma VerifiedLaw(hrp: seq<byte>, values: seq<byte>)
    requires Symbols(values)
    ensures Verified(hrp, values) == Bech32 <==> exists q :: Divides(Polynomial(hrp, values), q, [0, 0, 0, 0, 0, 1])
    ensures Verified(hrp, values) == Bech32m
       <==> exists q :: Divides(Polynomial(hrp, values), q, [21, 28, 16, 12, 5, 3])
  {
    hide Divides, ExpandHrp, Polynomial, Groups, EncodingConstant, Rem, Remainder;
    PolynomialIs(hrp, values);
    var p, v := Polynomial(hrp, values), ExpandHrp(hrp) + values;
    RemainderIsRem(v);
    PolynomialSymbols(v);
    MarkGroups();
    var q0 := QuotientExists(p);
    if q :| Divides(p, q, [0, 0, 0, 0, 0, 1]) {
      RemainderOnly(p, q, [0, 0, 0, 0, 0, 1]);
    }
    if q :| Divides(p, q, [21, 28, 16, 12, 5, 3]) {
      RemainderOnly(p, q, [21, 28, 16, 12, 5, 3]);
    }
    MarkDetermines(PolyMod(v), 1);
    MarkDetermines(PolyMod(v), 0x2bc830a3);
  }

  lemma PolynomialSymbols(v: seq<byte>)
    requires Symbols(v)
    ensures Symbols([1] + v)
  {}

  lemma MarkDetermines(a: word, b: word)
    requires a < 0x40000000 && b < 0x40000000
    ensures a == b <==> Groups(a) == Groups(b)
  {
    hide Groups;
    if Groups(a) == Groups(b) {
      GroupsDetermine(a, b);
    }
  }

  // ------------------------------------------------------------------ the strings

  /** The character of a symbol. */
  function Letter(d: byte): char
    requires d < 32
  {
    "qpzry9x8gf2tvdw0s3jn54khce6mua7l"[d as int]
  }

  function Capital(d: byte): char
    requires d < 32
  {
    "QPZRY9X8GF2TVDW0S3JN54KHCE6MUA7L"[d as int]
  }

  lemma CharacterLaw(d: byte)
    requires d < 32
    ensures Character(d) as char == Letter(d)
  {}

  /** Both cases of a character stand for its symbol, and nothing else does. */
  lemma SymbolLaw(c: byte, d: byte)
    requires d < 32
    ensures Symbol(c) == d <==> c as char == Letter(d) || c as char == Capital(d)
  {
    hide Symbol, SmallSymbol, Character, LowerCase, Letter, Capital;
    CharacterInverse(d);
    CharacterLaw(d);
    CapitalLaw(d);
    LowerIs(c, Character(d));
    LowerIs(Character(d), Character(d));
    if LowerCase(c) == Character(d) {
      SameCaseSymbol(c, Character(d));
    }
    if Symbol(c) == d {
      SymbolInverse(c);
    }
  }

  lemma SameCaseSymbol(c: byte, x: byte)
    requires LowerCase(c) == LowerCase(x)
    ensures Symbol(c) == Symbol(x)
  {
    hide SmallSymbol, LowerCase;
  }

  lemma LowerIs(c: byte, x: byte)
    requires !IsUpper(x)
    ensures LowerCase(c) == x <==> c == x || (IsLower(x) && c == x - 32)
  {}

  lemma CapitalLaw(d: byte)
    requires d < 32
    ensures Capital(d) == (if IsLower(Character(d)) then Character(d) - 32 else Character(d)) as char
  {}

  /** The polynomial of a prefix and its symbols leaves what marks the encoding. */
  ghost predicate Checked(encoding: Encoding, hrp: seq<byte>, values: seq<byte>) {
    var mark := if encoding == Bech32 then [0, 0, 0, 0, 0, 1] else [21, 28, 16, 12, 5, 3];
    exists q :: Divides(Polynomial(hrp, values), q, mark)
  }

  lemma CheckedExactly(encoding: Encoding, hrp: seq<byte>, values: seq<byte>)
    requires Symbols(values) && encoding != Invalid
    ensures Verified(hrp, values) == encoding <==> Checked(encoding, hrp, values)
  {
    hide Verified, Divides, Polynomial;
    VerifiedLaw(hrp, values);
  }

  /** s is the prefix, a "1", and the characters of the symbols. */
  ghost predicate Spells(s: seq<byte>, hrp: seq<byte>, values: seq<byte>) {
    && |s| == |hrp| + 1 + |values| && s[..|hrp|] == hrp && s[|hrp|] == 49
    && forall i :: 0 <= i < |values| ==> values[i] < 32 && s[|hrp| + 1 + i] as char == Letter(values[i])
  }

  /** The same in either case; the prefix is given in lower case. */
  ghost predicate Reads(s: seq<byte>, hrp: seq<byte>, values: seq<byte>) {
    && |s| == |hrp| + 1 + |values| && s[|hrp|] == 49
    && (forall i :: 0 <= i < |hrp| ==>
          !(65 <= hrp[i] <= 90) && (s[i] == hrp[i] || (65 <= s[i] <= 90 && s[i] + 32 == hrp[i])))
    && (forall i :: 0 <= i < |values| ==> values[i] < 32)
    && forall i :: 0 <= i < |values| ==>
         s[|hrp| + 1 + i] as char == Letter(values[i]) || s[|hrp| + 1 + i] as char == Capital(values[i])
  }

  /** What the standards ask of a string as such. */
  ghost predicate Acceptable(s: seq<byte>) {
    && |s| <= 90 && (forall i :: 0 <= i < |s| ==> 33 <= s[i] <= 126)
    && ((forall i :: 0 <= i < |s| ==> !(97 <= s[i] <= 122)) || (forall i :: 0 <= i < |s| ==> !(65 <= s[i] <= 90)))
  }

  /** What is encoded spells the prefix, the values, and six symbols that make the polynomial leave the mark. */
  lemma EncodedMeaning(encoding: Encoding, hrp: seq<byte>, values: seq<byte>)
    requires encoding != Invalid && Symbols(values)
    ensures exists check :: |check| == 6 && Symbols(check) && Checked(encoding, hrp, values + check)
              && Spells(Encoded(encoding, hrp, values), hrp, values + check)
  {
    hide Checked, Verified, Checksum, Character, Letter;
    var check, s := Checksum(encoding, hrp, values), Encoded(encoding, hrp, values);
    ChecksumSymbols(encoding, hrp, values);
    ChecksumVerifies(encoding, hrp, values);
    CheckedExactly(encoding, hrp, values + check);
    forall i | 0 <= i < |values| + 6
      ensures (values + check)[i] < 32 && s[|hrp| + 1 + i] as char == Letter((values + check)[i])
    {
      CharacterLaw((values + check)[i]);
    }
    assert Spells(s, hrp, values + check);
  }

  /** A string decodes to a prefix and data exactly when it reads like their encoding and is acceptable. */
  lemma DecodedMeaning(s: seq<byte>, encoding: Encoding, hrp: seq<byte>, data: seq<byte>)
    requires encoding != Invalid
    ensures Decoded(s) == Decoding(encoding, hrp, data)
       <==> hrp != [] && Acceptable(s)
            && exists check :: |check| == 6 && Checked(encoding, hrp, data + check) && Reads(s, hrp, data + check)
  {
    hide Decoded, Checked, Reads, Acceptable;
    if Decoded(s) == Decoding(encoding, hrp, data) {
      DecodedReads(s, encoding, hrp, data);
    }
    if hrp != [] && Acceptable(s) {
      forall check | |check| == 6 && Checked(encoding, hrp, data + check) && Reads(s, hrp, data + check)
        ensures Decoded(s) == Decoding(encoding, hrp, data)
      {
        ReadsDecoded(s, encoding, hrp, data, check);
      }
    }
  }

  lemma CleanLaw(s: seq<byte>)
    ensures Acceptable(s) <==> Clean(s) && |s| <= 90
  {}

  lemma DecodedReads(s: seq<byte>, encoding: Encoding, hrp: seq<byte>, data: seq<byte>)
    requires encoding != Invalid && Decoded(s) == Decoding(encoding, hrp, data)
    ensures hrp != [] && Acceptable(s)
    ensures exists check :: |check| == 6 && Checked(encoding, hrp, data + check) && Reads(s, hrp, data + check)
  {
    hide Verified, Checked, Symbol, Letter, Capital, Acceptable, Clean, LowerCase, IsUpper, IsPrintable;
    CleanLaw(s);
    EncodeDecode(s);
    var values := SymbolsOf(s[|hrp| + 1..]);
    var check := values[|data|..];
    assert values == data + check && s[|hrp|] == 49;
    SymbolsBack(s[|hrp| + 1..]);
    CheckedExactly(encoding, hrp, values);
    forall i | 0 <= i < |values|
      ensures values[i] < 32 && (s[|hrp| + 1 + i] as char == Letter(values[i])
                                 || s[|hrp| + 1 + i] as char == Capital(values[i]))
    {
      SymbolLaw(s[|hrp| + 1 + i], values[i]);
    }
    forall i | 0 <= i < |hrp|
      ensures !(65 <= hrp[i] <= 90) && (s[i] == hrp[i] || (65 <= s[i] <= 90 && s[i] + 32 == hrp[i]))
    {
      assert hrp[i] == LowerCase(s[..|hrp|][i]);
      LowerLaw(s[i], hrp[i]);
    }
    assert Reads(s, hrp, data + check);
  }

  lemma LowerLaw(c: byte, d: byte)
    ensures d == LowerCase(c) <==> !(65 <= d <= 90) && (c == d || (65 <= c <= 90 && c + 32 == d))
  {}

  lemma ReadsDecoded(s: seq<byte>, encoding: Encoding, hrp: seq<byte>, data: seq<byte>, check: seq<byte>)
    requires encoding != Invalid && hrp != [] && Acceptable(s) && |check| == 6
    requires Checked(encoding, hrp, data + check) && Reads(s, hrp, data + check)
    ensures Decoded(s) == Decoding(encoding, hrp, data)
  {
    hide Verified, Checked, Symbol, Letter, Capital, Acceptable, Clean, LowerCase, IsUpper, IsPrintable;
    CleanLaw(s);
    var n, values, tail := |hrp|, data + check, s[|hrp| + 1..];
    forall i | 0 <= i < |values|
      ensures Symbol(tail[i]) == values[i] < 32 && tail[i] != ONE
    {
      assert tail[i] == s[n + 1 + i];
      SymbolLaw(tail[i], values[i]);
      OneIsNoSymbol();
    }
    forall i | n < i < |s|
      ensures s[i] != ONE
    {
      assert s[i] == tail[i - n - 1];
    }
    SeparatorIs(s, n);
    assert SymbolsOf(tail) == values;
    assert InCharset(tail);
    forall i | 0 <= i < n
      ensures LowerCase(s[i]) == hrp[i]
    {
      LowerLaw(s[i], hrp[i]);
    }
    assert Lowered(s[..n]) == hrp;
    CheckedExactly(encoding, hrp, values);
    assert values[..|values| - 6] == data;
  }

  lemma OneIsNoSymbol()
    ensures Symbol(ONE) == NOT_IN_CHARSET
  {}

  // ---------------------------------------------------------- the shortest strings

  lemma ExpandedA()
    ensures ExpandHrp([97]) == [3, 0, 1]
  {
    assert HighBits(97) == 3 && LowBits(97) == 1;
  }

  lemma {:induction false} RemainderRun(v: seq<byte>, steps: seq<word>)
    requires |steps| == |v| + 1 && steps[0] == 1
    requires forall i :: 0 <= i < |v| ==> steps[i + 1] == Step(steps[i], v[i])
    ensures PolyMod(v) == steps[|v|]
  {
    hide Step;
    if v != [] {
      RemainderRun(v[..|v| - 1], steps[..|v|]);
    }
  }

  lemma SharedSteps()
    ensures Step(1, 3) == 0x23 && Step(0x23, 0) == 0x460 && Step(0x460, 1) == 0x8c01
  {}

  lemma ShortestSteps()
    ensures Step(0x8c01, 10) == 0x11802a && Step(0x11802a, 28) == 0x230055c && Step(0x230055c, 25) == 0x3d6afc2b
    ensures Step(0x3d6afc2b, 31) == 0x2f84386 && Step(0x2f84386, 20) == 0x24622766 && Step(0x24622766, 31) == 1
  {}

  lemma ShortestStepsM()
    ensures Step(0x8c01, 31) == 0x11803f && Step(0x11803f, 0) == 0x23007e0 && Step(0x23007e0, 9) == 0x3d6aabbb
    ensures Step(0x3d6aabbb, 19) == 0x2f2b18a && Step(0x2f2b18a, 17) == 0x253c66e3
    ensures Step(0x253c66e3, 29) == 0x2bc830a3
  {}

  /** The prefix "a" without data has this checksum. */
  lemma ShortestVerified(encoding: Encoding, check: seq<byte>)
    requires encoding != Invalid
    requires check == if encoding == Bech32 then [10, 28, 25, 31, 20, 31] else [31, 0, 9, 19, 17, 29]
    ensures check == Checksum(encoding, [97], [])
  {
    hide Step, PolyMod;
    SharedSteps();
    ShortestSteps();
    ShortestStepsM();
    ExpandedA();
    var steps: seq<word> := [1, 0x23, 0x460, 0x8c01]
      + if encoding == Bech32 then [0x11802a, 0x230055c, 0x3d6afc2b, 0x2f84386, 0x24622766, 1]
        else [0x11803f, 0x23007e0, 0x3d6aabbb, 0x2f2b18a, 0x253c66e3, 0x2bc830a3];
    RemainderRun([3, 0, 1] + check, steps);
    assert ExpandHrp([97]) + ([] + check) == [3, 0, 1] + check;
    ChecksumUnique(encoding, [97], [], check);
  }

  /** "a12uel5l" and "a1lqfn3a", the shortest strings of BIP 173 and BIP 350. */
  lemma ShortestStrings()
    ensures Encoded(Bech32, [97], []) == [97, 49, 50, 117, 101, 108, 53, 108]
    ensures Encoded(Bech32m, [97], []) == [97, 49, 108, 113, 102, 110, 51, 97]
  {
    ShortestEncoded(Bech32, [10, 28, 25, 31, 20, 31]);
    ShortestEncoded(Bech32m, [31, 0, 9, 19, 17, 29]);
  }

  lemma ShortestEncoded(encoding: Encoding, check: seq<byte>)
    requires encoding != Invalid
    requires check == if encoding == Bech32 then [10, 28, 25, 31, 20, 31] else [31, 0, 9, 19, 17, 29]
    ensures Encoded(encoding, [97], [])
         == [97, 49] + if encoding == Bech32 then [50, 117, 101, 108, 53, 108] else [108, 113, 102, 110, 51, 97]
  {
    hide Checksum, Characters;
    ShortestVerified(encoding, check);
    ShortestCharacters();
    assert [] + check == check;
    assert [97] + [ONE] == [97, 49];
  }

  lemma ShortestCharacters()
    ensures Characters([10, 28, 25, 31, 20, 31]) == [50, 117, 101, 108, 53, 108]
    ensures Characters([31, 0, 9, 19, 17, 29]) == [108, 113, 102, 110, 51, 97]
  {}
}
