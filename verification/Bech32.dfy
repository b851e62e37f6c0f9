/** Bech32 and Bech32m: the checksum as a linear code, encoding and decoding (BIP 173 and BIP 350). */
module Bech32 {
  type byte = bv8
  type word = bv32

  datatype Encoding = Invalid | Bech32 | Bech32m

  function EncodingConstant(encoding: Encoding): word {
    if encoding == Bech32 then 1 else 0x2bc830a3
  }

  // --------------------------------------------------------- addition in GF(2)

  function Xor(a: word, b: word): word {
    a ^ b
  }

  lemma XorCancels(k: word)
    ensures Xor(k, k) == 0 && Xor(k, 0) == k && Xor(0, k) == k
  {}

  lemma XorLaws(a: word, b: word, c: word)
    ensures Xor(a, b) == Xor(b, a)
    ensures Xor(Xor(a, b), c) == Xor(a, Xor(b, c))
  {}

  lemma XorPairs(a: word, b: word, c: word, d: word)
    ensures Xor(Xor(a, b), Xor(c, d)) == Xor(Xor(a, c), Xor(b, d))
  {
    hide Xor;
    XorLaws(a, b, Xor(c, d));
    XorLaws(b, c, d);
    XorLaws(c, b, d);
    XorLaws(a, c, Xor(b, d));
  }

  /** Adding b twice gives a back, so a sum determines its other part. */
  lemma XorUndo(a: word, b: word)
    ensures Xor(Xor(a, b), b) == a && Xor(b, Xor(b, a)) == a
    ensures Xor(a, b) == 0 <==> a == b
  {
    Undo(a, b);
  }

  lemma Undo(a: word, b: word)
    ensures (a ^ b) ^ b == a && b ^ (b ^ a) == a
    ensures a ^ b == 0 <==> a == b
  {}

  // ------------------------------------------------------------ the checksum

  /** Bit i of the coefficient that leaves the remainder selects this constant. */
  function Constant(i: nat): word {
    match i
    case 0 => 0x3b6a57b2
    case 1 => 0x26508e6d
    case 2 => 0x1ea119fa
    case 3 => 0x3d4233dd
    case _ => 0x2a1462b3
  }

  predicate BitSet(c0: word, i: nat) {
    match i
    case 0 => c0 & 1 != 0
    case 1 => c0 & 2 != 0
    case 2 => c0 & 4 != 0
    case 3 => c0 & 8 != 0
    case _ => c0 & 16 != 0
  }

  function Selected(c0: word, i: nat): word {
    if BitSet(c0, i) then Constant(i) else 0
  }

  /** The first n constants that c0 selects, added up. */
  function Reduction(c0: word, n: nat): word {
    if n == 0 then 0 else Xor(Reduction(c0, n - 1), Selected(c0, n - 1))
  }

  function Top(c: word): word {
    c >> 25
  }

  function Shifted(c: word): word {
    (c & 0x1ffffff) << 5
  }

  function Widen(v: byte): word {
    v as word
  }

  /** Multiplies the remainder polynomial by x, reduces it and adds the next coefficient. */
  function Step(c: word, v: byte): word {
    Xor(Xor(Shifted(c), Widen(v)), Reduction(Top(c), 5))
  }

  function Remainder(c: word, v: seq<byte>): word {
    if v == [] then c else Step(Remainder(c, v[..|v| - 1]), v[|v| - 1])
  }

  function PolyMod(v: seq<byte>): word {
    Remainder(1, v)
  }

  function ByteXor(v: byte, w: byte): byte {
    v ^ w
  }

  lemma SelectedLinear(a: word, b: word, i: nat)
    ensures Selected(Xor(a, b), i) == Xor(Selected(a, i), Selected(b, i))
  {
    hide BitSet, Constant, Xor;
    BitLinear(a, b, i);
    XorCancels(Constant(i));
    XorCancels(0);
  }

  lemma BitLinear(a: word, b: word, i: nat)
    ensures BitSet(Xor(a, b), i) <==> BitSet(a, i) != BitSet(b, i)
  {}

  lemma {:induction false} ReductionLinear(a: word, b: word, n: nat)
    ensures Reduction(Xor(a, b), n) == Xor(Reduction(a, n), Reduction(b, n))
  {
    hide Selected, Xor;
    if n == 0 {
      XorCancels(0);
    } else {
      ReductionLinear(a, b, n - 1);
      SelectedLinear(a, b, n - 1);
      XorPairs(Reduction(a, n - 1), Reduction(b, n - 1), Selected(a, n - 1), Selected(b, n - 1));
    }
  }

  lemma StepLinear(a: word, b: word, v: byte, w: byte)
    ensures Step(Xor(a, b), ByteXor(v, w)) == Xor(Step(a, v), Step(b, w))
  {
    hide Reduction, Xor, Top, Shifted, Widen, ByteXor;
    ReductionLinear(Top(a), Top(b), 5);
    PartsLinear(a, b, v, w);
    XorPairs(Shifted(a), Shifted(b), Widen(v), Widen(w));
    XorPairs(Xor(Shifted(a), Widen(v)), Xor(Shifted(b), Widen(w)), Reduction(Top(a), 5), Reduction(Top(b), 5));
  }

  lemma PartsLinear(a: word, b: word, v: byte, w: byte)
    ensures Top(Xor(a, b)) == Xor(Top(a), Top(b))
    ensures Shifted(Xor(a, b)) == Xor(Shifted(a), Shifted(b))
    ensures Widen(ByteXor(v, w)) == Xor(Widen(v), Widen(w))
  {}

  lemma ReductionIs(c0: word)
    ensures Reduction(c0, 5)
         == (if c0 & 1 != 0 then 0x3b6a57b2 else 0) ^ (if c0 & 2 != 0 then 0x26508e6d else 0)
            ^ (if c0 & 4 != 0 then 0x1ea119fa else 0) ^ (if c0 & 8 != 0 then 0x3d4233dd else 0)
            ^ (if c0 & 16 != 0 then 0x2a1462b3 else 0)
  {
    var z: word := 0;
    assert Reduction(c0, 0) == 0;
    assert Reduction(c0, 1) == z ^ Selected(c0, 0);
    assert Reduction(c0, 2) == z ^ Selected(c0, 0) ^ Selected(c0, 1);
    assert Reduction(c0, 3) == z ^ Selected(c0, 0) ^ Selected(c0, 1) ^ Selected(c0, 2);
    assert Reduction(c0, 4) == z ^ Selected(c0, 0) ^ Selected(c0, 1) ^ Selected(c0, 2) ^ Selected(c0, 3);
  }

  /** The low bits of the five constants are independent, so a nonzero remainder stays nonzero. */
  lemma StepInjective(c: word)
    requires c < 0x40000000 && Step(c, 0) == 0
    ensures c == 0
  {
    hide Reduction;
    ReductionIs(Top(c));
  }

  lemma StepRange(c: word, v: byte)
    ensures Step(c, v) < 0x40000000
  {
    hide Reduction;
    ReductionIs(Top(c));
  }

  lemma StepShort(c: word, v: byte)
    requires c < 0x2000000
    ensures Step(c, v) == (c << 5) ^ (v as word)
  {
    hide Reduction;
    ReductionIs(Top(c));
  }

  // ------------------------------------------------------ sums of symbol lists

  function XorAll(v: seq<byte>, w: seq<byte>): (s: seq<byte>)
    requires |v| == |w|
    ensures |s| == |v|
  {
    seq(|v|, i requires 0 <= i < |v| => ByteXor(v[i], w[i]))
  }

  ghost predicate Symbols(v: seq<byte>) {
    forall i :: 0 <= i < |v| ==> v[i] < 32
  }

  ghost predicate AllZero(v: seq<byte>) {
    forall i :: 0 <= i < |v| ==> v[i] == 0
  }

  /** The checksum of a sum is the sum of the checksums. */
  lemma {:induction false} RemainderLinear(a: word, b: word, v: seq<byte>, w: seq<byte>)
    requires |v| == |w|
    ensures Remainder(Xor(a, b), XorAll(v, w)) == Xor(Remainder(a, v), Remainder(b, w))
  {
    hide Xor, ByteXor, Step;
    if v != [] {
      var n := |v| - 1;
      RemainderLinear(a, b, v[..n], w[..n]);
      assert XorAll(v, w)[..n] == XorAll(v[..n], w[..n]);
      StepLinear(Remainder(a, v[..n]), Remainder(b, w[..n]), v[n], w[n]);
    }
  }

  lemma {:induction false} RemainderSplit(c: word, u: seq<byte>, v: seq<byte>)
    ensures Remainder(c, u + v) == Remainder(Remainder(c, u), v)
  {
    hide Step;
    if v == [] {
      assert u + v == u;
    } else {
      var n := |v| - 1;
      RemainderSplit(c, u, v[..n]);
      assert (u + v)[..|u| + n] == u + v[..n];
    }
  }

  /** No number of zero symbols turns a nonzero remainder into zero. */
  lemma {:induction false} ZerosKeepNonzero(c: word, v: seq<byte>)
    requires c < 0x40000000 && c != 0 && AllZero(v)
    ensures Remainder(c, v) != 0 && Remainder(c, v) < 0x40000000
  {
    hide Step;
    if v != [] {
      var n := |v| - 1;
      ZerosKeepNonzero(c, v[..n]);
      var r := Remainder(c, v[..n]);
      StepRange(r, 0);
      if Step(r, 0) == 0 {
        StepInjective(r);
      }
    }
  }

  /** 32^n. */
  function Limit(n: nat): word {
    match n
    case 0 => 1
    case 1 => 0x20
    case 2 => 0x400
    case 3 => 0x8000
    case 4 => 0x100000
    case 5 => 0x2000000
    case _ => 0x40000000
  }

  /** Up to six symbols are all still visible in the remainder. */
  lemma {:induction false} ShortRemainder(v: seq<byte>)
    requires |v| <= 6 && Symbols(v)
    ensures Remainder(0, v) < Limit(|v|)
    ensures Remainder(0, v) == 0 ==> AllZero(v)
  {
    hide Step;
    if v != [] {
      var n := |v| - 1;
      ShortRemainder(v[..n]);
      NextSymbol(Remainder(0, v[..n]), v[n], n);
    }
  }

  lemma NextSymbol(c: word, v: byte, n: nat)
    requires n < 6 && c < Limit(n) && v < 32
    ensures Step(c, v) < Limit(n + 1) && (Step(c, v) == 0 ==> c == 0 && v == 0)
  {
    hide Step;
    StepShort(c, v);
  }

  /** An error confined to six neighbouring symbols always changes the checksum, whatever the length. */
  lemma BurstDetected(u: seq<byte>, v: seq<byte>, w: seq<byte>, x: seq<byte>)
    requires |v| == |w| <= 6 && Symbols(v) && Symbols(w) && v != w
    ensures PolyMod(u + v + x) != PolyMod(u + w + x)
  {
    hide Xor, Step, ByteXor;
    var c := Remainder(1, u);
    RemainderSplit(1, u, v);
    RemainderSplit(1, u, w);
    RemainderSplit(1, u + v, x);
    RemainderSplit(1, u + w, x);
    var a, b := Remainder(c, v), Remainder(c, w);
    RemainderLinear(c, c, v, w);
    XorUndo(c, c);
    DifferenceShort(v, w);
    ShortRemainder(XorAll(v, w));
    LimitSix(|v|);
    RemainderLinear(a, b, x, x);
    SelfDifference(x);
    ZerosKeepNonzero(Xor(a, b), XorAll(x, x));
    XorUndo(Remainder(a, x), Remainder(b, x));
  }

  lemma LimitSix(n: nat)
    ensures Limit(n) <= 0x40000000 && Limit(0) == 1 && Limit(6) == 0x40000000
  {}

  lemma DifferenceShort(v: seq<byte>, w: seq<byte>)
    requires |v| == |w| && Symbols(v) && Symbols(w) && v != w
    ensures Symbols(XorAll(v, w)) && !AllZero(XorAll(v, w))
  {
    hide ByteXor;
    forall i | 0 <= i < |v|
      ensures XorAll(v, w)[i] < 32 && (XorAll(v, w)[i] == 0 <==> v[i] == w[i])
    {
      ByteDifference(v[i], w[i]);
    }
  }

  lemma ByteDifference(v: byte, w: byte)
    ensures v < 32 && w < 32 ==> ByteXor(v, w) < 32
    ensures ByteXor(v, w) == 0 <==> v == w
  {}

  lemma SelfDifference(x: seq<byte>)
    ensures AllZero(XorAll(x, x))
  {
    hide ByteXor;
    forall i | 0 <= i < |x|
      ensures XorAll(x, x)[i] == 0
    {
      ByteDifference(x[i], x[i]);
    }
  }

  // ------------------------------------------------------ creating the checksum

  /** m without its 6 - i low groups of five bits. */
  function High(m: word, i: nat): word
    decreases 6 - i
  {
    if i >= 6 then m else ShiftRight(High(m, i + 1))
  }

  function ShiftRight(m: word): word {
    m >> 5
  }

  function LowGroup(m: word): byte {
    (m & 31) as byte
  }

  /** Group i of the six 5-bit groups of a remainder, most significant first. */
  function Group(m: word, i: nat): byte {
    LowGroup(High(m, i + 1))
  }

  function Groups(m: word): seq<byte> {
    [Group(m, 0), Group(m, 1), Group(m, 2), Group(m, 3), Group(m, 4), Group(m, 5)]
  }

  const SIX_ZEROS: seq<byte> := [0, 0, 0, 0, 0, 0]

  function HighBits(c: byte): byte {
    c >> 5
  }

  function LowBits(c: byte): byte {
    c & 0x1f
  }

  /** The human-readable part as symbols: its high bits, a zero, its low bits. */
  function ExpandHrp(hrp: seq<byte>): seq<byte> {
    seq(|hrp|, i requires 0 <= i < |hrp| => HighBits(hrp[i])) + [0]
    + seq(|hrp|, i requires 0 <= i < |hrp| => LowBits(hrp[i]))
  }

  function Checksum(encoding: Encoding, hrp: seq<byte>, values: seq<byte>): seq<byte> {
    Groups(Xor(PolyMod(ExpandHrp(hrp) + values + SIX_ZEROS), EncodingConstant(encoding)))
  }

  function Verified(hrp: seq<byte>, values: seq<byte>): Encoding {
    var check := PolyMod(ExpandHrp(hrp) + values);
    if check == EncodingConstant(Bech32) then Bech32
    else if check == EncodingConstant(Bech32m) then Bech32m
    else Invalid
  }

  lemma GroupRange(m: word, i: nat)
    ensures Group(m, i) < 32
  {
    hide High;
  }

  /** Six groups put together again one by one. */
  lemma {:induction false} GroupsTogether(m: word, i: nat)
    requires m < 0x40000000 && i <= 6
    ensures Remainder(0, Groups(m)[..i]) == High(m, i)
  {
    hide Step, Group, High;
    if i == 0 {
      HighRange(m, 0);
      LimitSix(0);
    } else {
      GroupsTogether(m, i - 1);
      assert Groups(m)[..i][..i - 1] == Groups(m)[..i - 1];
      HighRange(m, i);
      HighStep(m, i - 1);
    }
  }

  lemma {:induction false} HighRange(m: word, i: nat)
    requires m < 0x40000000 && i <= 6
    ensures High(m, i) < Limit(i) <= 0x40000000
    decreases 6 - i
  {
    hide Limit;
    LimitSix(i);
    if i < 6 {
      HighRange(m, i + 1);
      LimitShift(High(m, i + 1), i);
    } else {
      LimitSix(6);
    }
  }

  lemma LimitShift(x: word, i: nat)
    requires i < 6 && x < Limit(i + 1)
    ensures x >> 5 < Limit(i)
  {}

  lemma HighStep(m: word, i: nat)
    requires i < 6 && High(m, i + 1) < 0x40000000
    ensures Step(High(m, i), Group(m, i)) == High(m, i + 1)
  {
    hide Step;
    GroupAppended(High(m, i + 1));
    StepShort(High(m, i), Group(m, i));
  }

  lemma GroupAppended(m: word)
    requires m < 0x40000000
    ensures m >> 5 < 0x2000000 && ((m >> 5) << 5) ^ (LowGroup(m) as word) == m
  {}

  // ------------------------------------------ the generator polynomial over GF(32)

  /** Multiplication by a in GF(32), where a^5 = a^3 + 1. */
  function TimesA(x: byte): byte {
    if x & 16 != 0 then ((x & 15) << 1) ^ 9 else x << 1
  }

  function TimesPower(x: byte, j: nat): byte {
    if j == 0 then x else TimesA(TimesPower(x, j - 1))
  }

  /** The product of x and the element whose first n bits are those of c0. */
  function Product(x: byte, c0: word, n: nat): byte {
    if n == 0 then 0 else ByteXor(Product(x, c0, n - 1), if BitSet(c0, n - 1) then TimesPower(x, n - 1) else 0)
  }

  /** x^6 + {29}x^5 + {22}x^4 + {20}x^3 + {21}x^2 + {29}x + {18}, from x^5 down. */
  function GeneratorCoefficient(i: nat): byte {
    match i
    case 0 => 29
    case 1 => 22
    case 2 => 20
    case 3 => 21
    case 4 => 29
    case _ => 18
  }

  /** The five constants are the generator polynomial times the powers of a. */
  lemma ConstantGroups(j: nat, i: nat)
    requires j < 5 && i < 6
    ensures Group(Constant(j), i) == TimesPower(GeneratorCoefficient(i), j)
  {
    hide Group, TimesPower;
    KnownGroups(j);
    KnownPowers(j);
  }

  /** {2^j} times the generator polynomial. */
  function Multiple(j: nat): seq<byte> {
    match j
    case 0 => [29, 22, 20, 21, 29, 18]
    case 1 => [19, 5, 1, 3, 19, 13]
    case 2 => [15, 10, 2, 6, 15, 26]
    case 3 => [30, 20, 4, 12, 30, 29]
    case _ => [21, 1, 8, 24, 21, 19]
  }

  lemma KnownGroups(j: nat)
    requires j < 5
    ensures forall i :: 0 <= i < 6 ==> Group(Constant(j), i) == Multiple(j)[i]
  {
    assert Groups(0x3b6a57b2) == Multiple(0);
    assert Groups(0x26508e6d) == Multiple(1);
    assert Groups(0x1ea119fa) == Multiple(2);
    assert Groups(0x3d4233dd) == Multiple(3);
    assert Groups(0x2a1462b3) == Multiple(4);
    assert Groups(Constant(j)) == Multiple(j);
    forall i | 0 <= i < 6
      ensures Group(Constant(j), i) == Multiple(j)[i]
    {
      assert Groups(Constant(j))[i] == Group(Constant(j), i);
    }
  }

  lemma {:induction false} KnownPowers(j: nat)
    requires j < 5
    ensures forall i :: 0 <= i < 6 ==> TimesPower(GeneratorCoefficient(i), j) == Multiple(j)[i]
  {
    if j > 0 {
      KnownPowers(j - 1);
      forall i | 0 <= i < 6
        ensures TimesA(Multiple(j - 1)[i]) == Multiple(j)[i]
      {}
    }
  }

  lemma GroupLinear(a: word, b: word, i: nat)
    ensures Group(Xor(a, b), i) == ByteXor(Group(a, i), Group(b, i)) && Group(0, i) == 0
  {
    hide High, Xor;
    HighLinear(a, b, i + 1);
    LowLinear(High(a, i + 1), High(b, i + 1));
  }

  lemma LowLinear(a: word, b: word)
    ensures LowGroup(Xor(a, b)) == ByteXor(LowGroup(a), LowGroup(b)) && LowGroup(0) == 0
  {}

  lemma {:induction false} HighLinear(a: word, b: word, i: nat)
    ensures High(Xor(a, b), i) == Xor(High(a, i), High(b, i)) && High(0, i) == 0
    decreases 6 - i
  {
    hide Xor, ShiftRight;
    if i < 6 {
      HighLinear(a, b, i + 1);
      ShiftLinear(High(a, i + 1), High(b, i + 1));
    }
  }

  lemma ShiftLinear(a: word, b: word)
    ensures ShiftRight(Xor(a, b)) == Xor(ShiftRight(a), ShiftRight(b)) && ShiftRight(0) == 0
  {}

  /** What leaves the remainder comes back as its product with the generator polynomial. */
  lemma {:induction false} ReductionIsProduct(c0: word, i: nat, n: nat)
    requires i < 6 && n <= 5
    ensures Group(Reduction(c0, n), i) == Product(GeneratorCoefficient(i), c0, n)
  {
    hide Xor, ByteXor, Group, Constant, BitSet, TimesPower;
    GroupLinear(0, 0, i);
    if n > 0 {
      ReductionIsProduct(c0, i, n - 1);
      ConstantGroups(n - 1, i);
      GroupLinear(Reduction(c0, n - 1), Selected(c0, n - 1), i);
    }
  }

  /** One step on coefficients: c(x) * x + v modulo the generator polynomial. */
  lemma StepIsPolynomialStep(c: word, v: byte, i: nat)
    requires c < 0x40000000 && v < 32 && i < 6
    ensures Group(Step(c, v), i)
         == ByteXor(if i < 5 then Group(c, i + 1) else v, Product(GeneratorCoefficient(i), Top(c), 5))
  {
    hide Xor, ByteXor, Group, Reduction, Shifted, Product;
    ReductionIsProduct(Top(c), i, 5);
    GroupLinear(Xor(Shifted(c), Widen(v)), Reduction(Top(c), 5), i);
    ShiftedGroups(c, v, i);
  }

  lemma ShiftedGroups(c: word, v: byte, i: nat)
    requires c < 0x40000000 && v < 32 && i < 6
    ensures Group(Xor(Shifted(c), Widen(v)), i) == if i < 5 then Group(c, i + 1) else v
  {
    hide Xor, ByteXor, Shifted, Widen, High;
    var s, low := Xor(Shifted(c), Widen(v)), KeptBits(c);
    ShiftedBack(c, v);
    if i < 5 {
      HighOfShift(s, low, i + 1);
      TopGroupOnly(c, i + 2);
      GroupLinear(low, Xor(c, low), i + 1);
      XorUndo(c, low);
      XorLaws(c, low, low);
      XorLaws(low, c, low);
      ByteZeroRight(Group(low, i + 1));
    } else {
      HighAll(s);
    }
  }

  function KeptBits(c: word): word {
    c & 0x1ffffff
  }

  lemma ShiftedBack(c: word, v: byte)
    requires v < 32
    ensures ShiftRight(Xor(Shifted(c), Widen(v))) == KeptBits(c) && LowGroup(Xor(Shifted(c), Widen(v))) == v
  {}

  lemma HighAll(m: word)
    ensures High(m, 6) == m
  {}

  lemma ByteZeroRight(v: byte)
    ensures ByteXor(v, 0) == v
  {}

  lemma {:induction false} HighOfShift(s: word, low: word, i: nat)
    requires ShiftRight(s) == low && i <= 5
    ensures High(s, i) == High(low, i + 1)
    decreases 5 - i
  {
    if i < 5 {
      HighOfShift(s, low, i + 1);
    }
  }

  /** The coefficient that is shifted out is in the top group alone. */
  lemma {:induction false} TopGroupOnly(c: word, i: nat)
    requires c < 0x40000000 && 2 <= i <= 6
    ensures High(Xor(c, KeptBits(c)), i) & LowMask(i) == 0
    ensures LowGroup(High(Xor(c, KeptBits(c)), i)) == 0
    decreases 6 - i
  {
    hide Xor, KeptBits, ShiftRight, LowMask;
    if i == 6 {
      OnlyTop(c);
    } else {
      TopGroupOnly(c, i + 1);
      MaskShift(High(Xor(c, KeptBits(c)), i + 1), i);
    }
  }

  function LowMask(i: nat): word {
    match i
    case 2 => 0x1f
    case 3 => 0x3ff
    case 4 => 0x7fff
    case 5 => 0xfffff
    case _ => 0x1ffffff
  }

  lemma MaskShift(x: word, i: nat)
    requires 2 <= i < 6 && x & LowMask(i + 1) == 0
    ensures ShiftRight(x) & LowMask(i) == 0 && LowGroup(ShiftRight(x)) == 0
  {}

  lemma OnlyTop(c: word)
    ensures Xor(c, KeptBits(c)) & LowMask(6) == 0 && LowGroup(Xor(c, KeptBits(c))) == 0
  {}

  /** Appending the checksum makes the whole list verify under the encoding. */
  lemma ChecksumVerifies(encoding: Encoding, hrp: seq<byte>, values: seq<byte>)
    requires encoding != Invalid
    ensures Verified(hrp, values + Checksum(encoding, hrp, values)) == encoding
  {
    hide Xor, Step, Group, ByteXor;
    var x := ExpandHrp(hrp) + values;
    var c, k := Remainder(1, x), EncodingConstant(encoding);
    var r := Remainder(c, SIX_ZEROS);
    RemainderSplit(1, x, SIX_ZEROS);
    var m := Xor(r, k);
    MaskedRange(r, encoding);
    RemainderRange(c, SIX_ZEROS);
    GroupsTogether(m, 6);
    assert Groups(m)[..6] == Groups(m) && High(m, 6) == m;
    RemainderLinear(c, 0, SIX_ZEROS, Groups(m));
    ZeroPlus(Groups(m));
    XorCancels(c);
    RemainderSplit(1, x, Groups(m));
    assert ExpandHrp(hrp) + (values + Groups(m)) == x + Groups(m);
    XorLaws(r, r, k);
    XorCancels(r);
    XorCancels(k);
  }

  lemma MaskedRange(r: word, encoding: Encoding)
    ensures r < 0x40000000 ==> Xor(r, EncodingConstant(encoding)) < 0x40000000
  {}

  lemma RemainderRange(c: word, v: seq<byte>)
    requires v != []
    ensures Remainder(c, v) < 0x40000000
  {
    hide Step;
    StepRange(Remainder(c, v[..|v| - 1]), v[|v| - 1]);
  }

  lemma ZeroPlus(v: seq<byte>)
    requires |v| == 6
    ensures XorAll(SIX_ZEROS, v) == v
  {
    hide ByteXor;
    forall i | 0 <= i < 6
      ensures ByteXor(SIX_ZEROS[i], v[i]) == v[i]
    {
      assert SIX_ZEROS[i] == 0;
      ByteZero(v[i]);
    }
  }

  lemma ByteZero(v: byte)
    ensures ByteXor(0, v) == v
  {}

  /** Nothing but the checksum does. */
  lemma ChecksumUnique(encoding: Encoding, hrp: seq<byte>, values: seq<byte>, s: seq<byte>)
    requires encoding != Invalid && |s| == 6 && Symbols(s) && Verified(hrp, values + s) == encoding
    ensures s == Checksum(encoding, hrp, values)
  {
    hide Xor, Step, Group, PolyMod;
    ChecksumVerifies(encoding, hrp, values);
    var sum := Checksum(encoding, hrp, values);
    ChecksumSymbols(encoding, hrp, values);
    var x := ExpandHrp(hrp) + values;
    assert x + s + [] == ExpandHrp(hrp) + (values + s);
    assert x + sum + [] == ExpandHrp(hrp) + (values + sum);
    if s != sum {
      BurstDetected(x, s, sum, []);
    }
  }

  lemma ChecksumSymbols(encoding: Encoding, hrp: seq<byte>, values: seq<byte>)
    ensures |Checksum(encoding, hrp, values)| == 6 && Symbols(Checksum(encoding, hrp, values))
  {
    hide Xor, Group, PolyMod;
    var m := Xor(PolyMod(ExpandHrp(hrp) + values + SIX_ZEROS), EncodingConstant(encoding));
    forall i: nat | i < 6
      ensures Group(m, i) < 32
    {
      GroupRange(m, i);
    }
  }

  // ------------------------------------------------------------- characters

  const NOT_IN_CHARSET: byte := 0xff
  const ONE: byte := 49

  /** CHARSET, the characters of the data part. */
  function Character(d: byte): byte {
    if d == 0 then 113
    else if d == 1 then 112
    else if d == 2 then 122
    else if d == 3 then 114
    else if d == 4 then 121
    else if d == 5 then 57
    else if d == 6 then 120
    else if d == 7 then 56
    else if d == 8 then 103
    else if d == 9 then 102
    else if d == 10 then 50
    else if d == 11 then 116
    else if d == 12 then 118
    else if d == 13 then 100
    else if d == 14 then 119
    else if d == 15 then 48
    else if d == 16 then 115
    else if d == 17 then 51
    else if d == 18 then 106
    else if d == 19 then 110
    else if d == 20 then 53
    else if d == 21 then 52
    else if d == 22 then 107
    else if d == 23 then 104
    else if d == 24 then 99
    else if d == 25 then 101
    else if d == 26 then 54
    else if d == 27 then 109
    else if d == 28 then 117
    else if d == 29 then 97
    else if d == 30 then 55
    else 108
  }

  predicate IsUpper(c: byte) {
    65 <= c <= 90
  }

  predicate IsLower(c: byte) {
    97 <= c <= 122
  }

  predicate IsPrintable(c: byte) {
    33 <= c <= 126
  }

  function LowerCase(c: byte): byte {
    if IsUpper(c) then c + 32 else c
  }

  function SmallSymbol(c: byte): byte {
    if c == 48 then 15
    else if c == 50 then 10
    else if c == 51 then 17
    else if c == 52 then 21
    else if c == 53 then 20
    else if c == 54 then 26
    else if c == 55 then 30
    else if c == 56 then 7
    else if c == 57 then 5
    else if c == 97 then 29
    else if c == 99 then 24
    else if c == 100 then 13
    else if c == 101 then 25
    else if c == 102 then 9
    else if c == 103 then 8
    else if c == 104 then 23
    else if c == 106 then 18
    else if c == 107 then 22
    else if c == 108 then 31
    else if c == 109 then 27
    else if c == 110 then 19
    else if c == 112 then 1
    else if c == 113 then 0
    else if c == 114 then 3
    else if c == 115 then 16
    else if c == 116 then 11
    else if c == 117 then 28
    else if c == 118 then 12
    else if c == 119 then 14
    else if c == 120 then 6
    else if c == 121 then 4
    else if c == 122 then 2
    else NOT_IN_CHARSET
  }

  /** CHARSET_REV, which treats both cases alike. */
  function Symbol(c: byte): byte {
    SmallSymbol(LowerCase(c))
  }

  lemma CharacterInverse(d: byte)
    requires d < 32
    ensures Symbol(Character(d)) == d
    ensures IsPrintable(Character(d)) && !IsUpper(Character(d)) && Character(d) != ONE
  {
    hide Character, SmallSymbol;
    CharacterRange(d);
    if d < 16 {
      LowCharacters(d);
    } else {
      HighCharacters(d);
    }
  }

  lemma CharacterRange(d: byte)
    requires d < 32
    ensures IsPrintable(Character(d)) && !IsUpper(Character(d)) && Character(d) != ONE
  {}

  lemma LowCharacters(d: byte)
    requires d < 16
    ensures SmallSymbol(Character(d)) == d
  {}

  lemma HighCharacters(d: byte)
    requires 16 <= d < 32
    ensures SmallSymbol(Character(d)) == d
  {}

  lemma SymbolInverse(c: byte)
    requires Symbol(c) != NOT_IN_CHARSET
    ensures Symbol(c) < 32 && Character(Symbol(c)) == LowerCase(c) && LowerCase(c) != ONE
  {
    hide Character, SmallSymbol, LowerCase;
    if LowerCase(c) < 106 {
      LowSymbols(LowerCase(c));
    } else {
      HighSymbols(LowerCase(c));
    }
    CharacterRange(Symbol(c));
  }

  lemma LowSymbols(c: byte)
    requires SmallSymbol(c) != NOT_IN_CHARSET && c < 106
    ensures SmallSymbol(c) < 32 && Character(SmallSymbol(c)) == c
  {}

  lemma HighSymbols(c: byte)
    requires SmallSymbol(c) != NOT_IN_CHARSET && 106 <= c
    ensures SmallSymbol(c) < 32 && Character(SmallSymbol(c)) == c
  {}

  // ------------------------------------------------------------------- strings

  function Characters(v: seq<byte>): seq<byte> {
    seq(|v|, i requires 0 <= i < |v| => Character(v[i]))
  }

  function SymbolsOf(s: seq<byte>): seq<byte> {
    seq(|s|, i requires 0 <= i < |s| => Symbol(s[i]))
  }

  function Lowered(s: seq<byte>): seq<byte> {
    seq(|s|, i requires 0 <= i < |s| => LowerCase(s[i]))
  }

  ghost function Encoded(encoding: Encoding, hrp: seq<byte>, values: seq<byte>): seq<byte> {
    hrp + [ONE] + Characters(values + Checksum(encoding, hrp, values))
  }

  datatype Decoding = Decoding(encoding: Encoding, hrp: seq<byte>, data: seq<byte>)

  const FAILED: Decoding := Decoding(Invalid, [], [])

  /** The position of the last separator, or -1. */
  function LastOne(s: seq<byte>): (pos: int)
    ensures -1 <= pos < |s|
    ensures pos >= 0 ==> s[pos] == ONE
    ensures forall i :: pos < i < |s| ==> s[i] != ONE
  {
    if s == [] then -1 else if s[|s| - 1] == ONE then |s| - 1 else LastOne(s[..|s| - 1])
  }

  ghost predicate Clean(s: seq<byte>) {
    && (forall i :: 0 <= i < |s| ==> IsPrintable(s[i]))
    && ((forall i :: 0 <= i < |s| ==> !IsLower(s[i])) || (forall i :: 0 <= i < |s| ==> !IsUpper(s[i])))
  }

  ghost predicate InCharset(s: seq<byte>) {
    forall i :: 0 <= i < |s| ==> Symbol(s[i]) != NOT_IN_CHARSET
  }

  ghost function Decoded(s: seq<byte>): Decoding {
    var pos := LastOne(s);
    if !Clean(s) || |s| > 90 || pos <= 0 || pos + 7 > |s| || !InCharset(s[pos + 1..]) then FAILED
    else
      var values, hrp := SymbolsOf(s[pos + 1..]), Lowered(s[..pos]);
      var encoding := Verified(hrp, values);
      if encoding == Invalid then FAILED else Decoding(encoding, hrp, values[..|values| - 6])
  }

  /** A human-readable part that decoding accepts and returns unchanged. */
  ghost predicate ValidHrp(hrp: seq<byte>) {
    hrp != [] && forall i :: 0 <= i < |hrp| ==> IsPrintable(hrp[i]) && !IsUpper(hrp[i])
  }

  lemma SeparatorIs(s: seq<byte>, pos: nat)
    requires pos < |s| && s[pos] == ONE && forall i :: pos < i < |s| ==> s[i] != ONE
    ensures LastOne(s) == pos
  {}

  /** Encoding and decoding meet exactly when the prefix is printable and nonempty and the string is at most 90 long. */
  lemma DecodeEncode(encoding: Encoding, hrp: seq<byte>, values: seq<byte>)
    requires encoding != Invalid && Symbols(values) && forall i :: 0 <= i < |hrp| ==> !IsUpper(hrp[i])
    ensures Decoded(Encoded(encoding, hrp, values))
         == if ValidHrp(hrp) && |hrp| + 7 + |values| <= 90 then Decoding(encoding, hrp, values) else FAILED
  {
    hide Character, Symbol, Checksum, Verified, IsUpper, IsLower, IsPrintable;
    var s, n := Encoded(encoding, hrp, values), |hrp|;
    var v := values + Checksum(encoding, hrp, values);
    ChecksumSymbols(encoding, hrp, values);
    ChecksumVerifies(encoding, hrp, values);
    assert Symbols(v);
    DataPart(v);
    assert s[n + 1..] == Characters(v);
    assert s[..n] == hrp;
    SeparatorIs(s, n);
    LoweredSame(hrp);
    OneIsClean();
    if ValidHrp(hrp) {
      forall i | 0 <= i < |s|
        ensures IsPrintable(s[i]) && !IsUpper(s[i])
      {
        assert s[i] == if i < n then hrp[i] else if i == n then ONE else Characters(v)[i - n - 1];
      }
    } else if n > 0 {
      var i :| 0 <= i < n && !IsPrintable(hrp[i]);
      assert s[i] == hrp[i];
    }
  }

  lemma OneIsClean()
    ensures IsPrintable(ONE) && !IsUpper(ONE)
  {}

  lemma DataPart(v: seq<byte>)
    requires Symbols(v)
    ensures var s := Characters(v);
      && SymbolsOf(s) == v && InCharset(s)
      && forall i :: 0 <= i < |s| ==> s[i] != ONE && IsPrintable(s[i]) && !IsUpper(s[i])
  {
    hide Character, Symbol, IsUpper, IsPrintable;
    forall i | 0 <= i < |v|
      ensures Symbol(Character(v[i])) == v[i] && v[i] != NOT_IN_CHARSET
      ensures Character(v[i]) != ONE && IsPrintable(Character(v[i])) && !IsUpper(Character(v[i]))
    {
      CharacterInverse(v[i]);
      assert v[i] < 32;
    }
  }

  lemma LoweredSame(s: seq<byte>)
    requires forall i :: 0 <= i < |s| ==> !IsUpper(s[i])
    ensures Lowered(s) == s
  {
    hide IsUpper;
  }

  /** Whatever decodes is, in lower case, the encoding of what it decodes to. */
  lemma EncodeDecode(s: seq<byte>)
    requires Decoded(s) != FAILED
    ensures var d := Decoded(s);
      && d.encoding != Invalid && ValidHrp(d.hrp) && Symbols(d.data) && |s| == |d.hrp| + 7 + |d.data| <= 90
      && Lowered(s) == Encoded(d.encoding, d.hrp, d.data)
  {
    hide Character, Symbol, Checksum, Verified, LowerCase;
    var pos, d := LastOne(s), Decoded(s);
    var tail := s[pos + 1..];
    var v := SymbolsOf(tail);
    var k := |v| - 6;
    SymbolsBack(tail);
    assert v == v[..k] + v[k..];
    assert Symbols(v[k..]) && Symbols(v[..k]);
    ChecksumUnique(d.encoding, d.hrp, d.data, v[k..]);
    LoweredValid(s[..pos]);
    LowerOne();
    assert s == s[..pos] + [s[pos]] + tail;
    assert Lowered(s) == Lowered(s[..pos]) + [LowerCase(s[pos])] + Lowered(tail);
  }

  lemma LowerOne()
    ensures LowerCase(ONE) == ONE
  {}

  lemma SymbolsBack(s: seq<byte>)
    requires InCharset(s)
    ensures Symbols(SymbolsOf(s)) && Characters(SymbolsOf(s)) == Lowered(s)
  {
    hide Character, Symbol, LowerCase;
    forall i | 0 <= i < |s|
      ensures Symbol(s[i]) < 32 && Character(Symbol(s[i])) == LowerCase(s[i])
    {
      SymbolInverse(s[i]);
    }
  }

  lemma LoweredValid(s: seq<byte>)
    requires s != [] && forall i :: 0 <= i < |s| ==> IsPrintable(s[i])
    ensures ValidHrp(Lowered(s))
  {}

  /** An error of up to six neighbouring symbols is never accepted under the same encoding. */
  lemma BurstNeverVerifies(hrp: seq<byte>, u: seq<byte>, v: seq<byte>, w: seq<byte>, x: seq<byte>)
    requires |v| == |w| <= 6 && Symbols(v) && Symbols(w) && v != w
    requires Verified(hrp, u + v + x) != Invalid
    ensures Verified(hrp, u + w + x) != Verified(hrp, u + v + x)
  {
    hide PolyMod;
    BurstDetected(ExpandHrp(hrp) + u, v, w, x);
    assert ExpandHrp(hrp) + u + v + x == ExpandHrp(hrp) + (u + v + x);
    assert ExpandHrp(hrp) + u + w + x == ExpandHrp(hrp) + (u + w + x);
  }

  // ------------------------------------------------------------------- the code

  /** c becomes the next remainder, one constant at a time. */
  method AddSymbol(before: word, v: byte) returns (c: word)
    ensures c == Step(before, v)
  {
    hide Xor, Constant, BitSet, Top, Shifted, Widen;
    var c0 := Top(before);
    c := Xor(Shifted(before), Widen(v));
    ghost var base := c;
    XorCancels(base);
    for i := 0 to 5
      invariant c == Xor(base, Reduction(c0, i))
    {
      XorLaws(base, Reduction(c0, i), Selected(c0, i));
      XorCancels(c);
      if BitSet(c0, i) {
        c := Xor(c, Constant(i));
      }
    }
  }

  method ComputePolyMod(v: seq<byte>) returns (c: word)
    ensures c == PolyMod(v)
  {
    hide Step;
    c := 1;
    for i := 0 to |v|
      invariant c == Remainder(1, v[..i])
    {
      assert v[..i + 1][..i] == v[..i];
      c := AddSymbol(c, v[i]);
    }
    assert v[..|v|] == v;
  }

  method ComputeExpandHrp(hrp: seq<byte>) returns (ret: seq<byte>)
    ensures ret == ExpandHrp(hrp)
  {
    hide HighBits, LowBits;
    var n := |hrp|;
    var out := new byte[2 * n + 1](i => 0);
    for i := 0 to n
      invariant forall k :: 0 <= k < i ==> out[k] == HighBits(hrp[k]) && out[k + n + 1] == LowBits(hrp[k])
      invariant out[n] == 0
    {
      out[i] := HighBits(hrp[i]);
      out[i + n + 1] := LowBits(hrp[i]);
    }
    out[n] := 0;
    forall k | n < k < 2 * n + 1
      ensures out[k] == LowBits(hrp[k - n - 1])
    {
      assert out[(k - n - 1) + n + 1] == LowBits(hrp[k - n - 1]);
    }
    ret := out[..];
  }

  method CreateChecksum(encoding: Encoding, hrp: seq<byte>, values: seq<byte>) returns (ret: seq<byte>)
    ensures ret == Checksum(encoding, hrp, values)
  {
    hide Group, PolyMod;
    var enc := ComputeExpandHrp(hrp);
    enc := enc + values;
    enc := enc + SIX_ZEROS;
    var m := ComputePolyMod(enc);
    m := Xor(m, EncodingConstant(encoding));
    var out := new byte[6](i => 0);
    for i := 0 to 6
      invariant forall k :: 0 <= k < i ==> out[k] == Group(m, k)
    {
      out[i] := Group(m, i);
    }
    ret := out[..];
    assert ret == Groups(m);
  }

  method VerifyChecksum(hrp: seq<byte>, values: seq<byte>) returns (encoding: Encoding)
    ensures encoding == Verified(hrp, values)
  {
    hide PolyMod;
    var expanded := ComputeExpandHrp(hrp);
    var check := ComputePolyMod(expanded + values);
    if check == EncodingConstant(Bech32) {
      return Bech32;
    }
    if check == EncodingConstant(Bech32m) {
      return Bech32m;
    }
    encoding := Invalid;
  }

  method Encode(encoding: Encoding, hrp: seq<byte>, values: seq<byte>) returns (ret: seq<byte>)
    requires Symbols(values)
    ensures ret == Encoded(encoding, hrp, values)
  {
    hide Character, Checksum;
    var checksum := CreateChecksum(encoding, hrp, values);
    var combined := values + checksum;
    ret := hrp + [ONE];
    for i := 0 to |combined|
      invariant ret == hrp + [ONE] + Characters(combined[..i])
    {
      assert Characters(combined[..i + 1]) == Characters(combined[..i]) + [Character(combined[i])];
      ret := ret + [Character(combined[i])];
    }
    assert combined[..|combined|] == combined;
  }

  /** The first loop: no unprintable character and not both cases. */
  method CheckCharacters(s: seq<byte>) returns (clean: bool)
    ensures clean <==> Clean(s)
  {
    var lower, upper := false, false;
    for i := 0 to |s|
      invariant forall k :: 0 <= k < i ==> IsPrintable(s[k])
      invariant lower <==> exists k :: 0 <= k < i && IsLower(s[k])
      invariant upper <==> exists k :: 0 <= k < i && IsUpper(s[k])
    {
      var c := s[i];
      if IsLower(c) {
        lower := true;
      } else if IsUpper(c) {
        upper := true;
      } else if c < 33 || c > 126 {
        return false;
      }
    }
    clean := !(lower && upper);
  }

  method FindLastOne(s: seq<byte>) returns (pos: int)
    ensures pos == LastOne(s)
  {
    pos := |s| - 1;
    while pos >= 0 && s[pos] != ONE
      invariant -1 <= pos < |s| && forall i :: pos < i < |s| ==> s[i] != ONE
    {
      pos := pos - 1;
    }
    if pos >= 0 {
      SeparatorIs(s, pos);
    }
  }

  method Decode(s: seq<byte>) returns (result: Decoding)
    ensures result == Decoded(s)
  {
    hide Symbol, LowerCase, Verified, Clean;
    var clean := CheckCharacters(s);
    if !clean {
      return FAILED;
    }
    var pos := FindLastOne(s);
    if |s| > 90 || pos == -1 || pos == 0 || pos + 7 > |s| {
      return FAILED;
    }
    var n := |s| - 1 - pos;
    ghost var tail := s[pos + 1..];
    var values := new byte[n](i => 0);
    for i := 0 to n
      invariant forall k :: 0 <= k < i ==> tail[k] == s[k + pos + 1] && Symbol(tail[k]) != NOT_IN_CHARSET
      invariant forall k :: 0 <= k < i ==> values[k] == Symbol(tail[k])
    {
      assert tail[i] == s[i + pos + 1];
      var rev := Symbol(s[i + pos + 1]);
      if rev == NOT_IN_CHARSET {
        return FAILED;
      }
      values[i] := rev;
    }
    var hrp: seq<byte> := [];
    for i := 0 to pos
      invariant hrp == Lowered(s[..i])
    {
      assert Lowered(s[..i + 1]) == Lowered(s[..i]) + [LowerCase(s[i])];
      hrp := hrp + [LowerCase(s[i])];
    }
    assert values[..] == SymbolsOf(tail);
    var encoding := VerifyChecksum(hrp, values[..]);
    if encoding == Invalid {
      return FAILED;
    }
    result := Decoding(encoding, hrp, values[..][..n - 6]);
  }
}
