/** Big-endian byte strings and their conversion to and from limbs. */
module ByteOrder {
  import opened ModArith
  import opened Radix
  import opened Limbs
  import opened Bignum

  /** The number a big-endian byte string stands for. */
  function BeValue(b: seq<uint8>): nat {
    Bound(0x100, b);
    Number(0x100, b)
  }

  lemma BeEmpty()
    ensures BeValue([]) == 0
  {}

  lemma BeSnoc(b: seq<uint8>, x: uint8)
    ensures BeValue(b + [x]) == BeValue(b) * 0x100 + x
  {
    Snoc(0x100, b, x);
  }

  lemma BeSplit(b: seq<uint8>, k: nat)
    requires k <= |b|
    ensures BeValue(b) == BeValue(b[..k]) * Pow(0x100, |b| - k) + BeValue(b[k..])
  {
    Split(0x100, b, k);
  }

  lemma BeBound(b: seq<uint8>)
    ensures BeValue(b) < Pow(0x100, |b|)
  {
    Bound(0x100, b);
  }

  /** Byte strings of one length are determined by their value. */
  lemma BeUnique(a: seq<uint8>, b: seq<uint8>)
    requires |a| == |b| && BeValue(a) == BeValue(b)
    ensures a == b
  {
    Unique(0x100, a, b);
  }

  /** The four-byte word read_be returns. */
  function Word(b: seq<uint8>): uint32
    requires |b| == 4
  {
    b[0] as int * 0x100_0000 + b[1] as int * 0x1_0000 + b[2] as int * 0x100 + b[3] as int
  }

  lemma WordValue(b: seq<uint8>)
    requires |b| == 4
    ensures BeValue(b) == Word(b)
  {
    assert b == [b[0], b[1], b[2], b[3]];
    assert b == [] + [b[0]] + [b[1]] + [b[2]] + [b[3]];
    BeSnoc([], b[0]);
    BeSnoc([] + [b[0]], b[1]);
    BeSnoc([] + [b[0]] + [b[1]], b[2]);
    BeSnoc([] + [b[0]] + [b[1]] + [b[2]], b[3]);
  }

  // ------------------------------------------------------------------ reading

  /** Shifts of 32-bit words. */
  function Shl32(x: uint32, n: nat): uint32 {
    x * Pow(2, n) % TWO32
  }

  function Shr32(x: uint32, n: nat): (r: int)
    ensures 0 <= r <= x
  {
    PowPositive(2, n);
    DivLe(x, Pow(2, n));
    x / Pow(2, n)
  }

  lemma DivLe(x: nat, m: int)
    requires m > 0
    ensures 0 <= x / m <= x
  {
    if x / m > x {
      MulMonotone(x + 1, x / m, m);
      MulMonotone(1, m, x + 1);
    }
  }

  /** The bits of a word placed above the e bits left over from the word before. */
  function Joined(temp: nat, limb: uint32, e: nat): nat {
    PowPositive(2, e);
    MulMonotone(0, limb, Pow(2, e));
    temp + limb as int * Pow(2, e)
  }

  /** What a word contributes when it is shifted left by e bits inside 32. */
  lemma ShiftedWord(temp: nat, limb: uint32, e: nat)
    requires e <= 29 && temp < Pow(2, e)
    ensures var t := Joined(temp, limb, e);
      && (temp + Shl32(limb, e)) < TWO32
      && (temp + Shl32(limb, e)) % BASE == t % BASE
      && Shr32(limb, 29 - e) == t / BASE
      && t / BASE < Pow(2, e + 3)
  {
    hide Pow;
    var a, b := Pow(2, e), Pow(2, 29 - e);
    PowPositive(2, e);
    PowPositive(2, 29 - e);
    PowAdd(2, e, 29 - e);
    LimbPow();
    var hi, lo := limb / b, limb % b;
    assert limb == hi * b + lo;
    var t := temp + limb * a;
    WordSplit(a, b, hi, lo, temp, limb);
    DivUnique(t, BASE, hi, temp + lo * a);
    // modulo 2^32 only hi loses its top bits
    var top, rest := hi / 8, hi % 8;
    assert limb * a == top * TWO32 + (rest * BASE + lo * a);
    MulMonotone(0, lo, a);
    DivUnique(limb * a, TWO32, top, rest * BASE + lo * a);
    DivUnique(temp + Shl32(limb, e), BASE, rest, temp + lo * a);
    PowAdd(2, e, 3);
    assert Pow(2, 3) == 8 by {
      EightIsPow();
    }
    HighPart(limb, hi, b, a);
  }

  lemma EightIsPow()
    ensures Pow(2, 3) == 8
  {}

  lemma WordSplit(a: int, b: int, hi: int, lo: int, temp: int, limb: int)
    requires a > 0 && b > 0 && a * b == BASE && limb == hi * b + lo && 0 <= lo < b && 0 <= temp < a
    ensures limb * a == hi * BASE + lo * a
    ensures 0 <= temp + lo * a < BASE
  {
    assert hi * b * a == hi * (a * b);
    MulMonotone(lo, b - 1, a);
    MulMonotone(0, lo, a);
    assert (b - 1) * a == a * b - a;
  }

  lemma HighPart(limb: int, hi: int, b: int, a: int)
    requires 0 <= limb < TWO32 && a > 0 && b > 0 && a * b == BASE && hi == limb / b
    ensures hi < 8 * a
  {
    assert 8 * a * b == 8 * (a * b);
    QuotientBelow(limb, b, 8 * a);
  }

  /** Word i of a 32-byte string, counted from the least significant end, and the value of the words below it. */
  function WordAt(bytes: seq<uint8>, i: nat): uint32
    requires |bytes| == 32 && i < 8
  {
    Word(bytes[28 - 4 * i..32 - 4 * i])
  }

  ghost function WordsBelow(bytes: seq<uint8>, i: nat): nat
    requires |bytes| == 32 && i <= 8
  {
    BeValue(bytes[32 - 4 * i..])
  }

  lemma WordsEnds(bytes: seq<uint8>)
    requires |bytes| == 32
    ensures WordsBelow(bytes, 0) == 0 && WordsBelow(bytes, 8) == BeValue(bytes)
  {
    assert bytes[32..] == [] && bytes[0..] == bytes;
  }

  /** out = the big-endian number in bytes, in normalized limbs. */
  method ReadBe(bytes: seq<uint8>, out: array<uint32>)
    requires |bytes| == 32 && out.Length == LIMBS
    modifies out
    ensures Num(out) && Val(out) == BeValue(bytes) < TWO256
  {
    hide Value, Place, Weight, BeValue, Pow, Shl32, Shr32, Joined, WordAt, WordsBelow;
    var temp: uint32 := 0;
    ValueEmpty();
    PlaceUp(0, 0);
    PowZero(2);
    WordsEnds(bytes);
    for i := 0 to LIMBS - 1
      invariant temp < Pow(2, 3 * i)
      invariant Normalized(out[..i])
      invariant Value(out[..i]) + Place(temp, i) == WordsBelow(bytes, i)
    {
      var limb: uint32 := WordAt(bytes, i);
      ShiftedWord(temp, limb, 3 * i);
      ghost var t := Joined(temp, limb, 3 * i);
      ReadStep(bytes, i, temp, limb);
      temp := temp + Shl32(limb, 3 * i);
      out[i] := temp % BASE;
      Carry(out, i, t);
      temp := Shr32(limb, 29 - 3 * i);
    }
    out[LIMBS - 1] := temp;
    LastLimb(out[..], Value(out[..8]));
    BytesFit(bytes);
  }

  lemma LastLimb(s: seq<uint32>, low: int)
    requires |s| == LIMBS && Normalized(s[..8]) && s[8] < Pow(2, 24) && low == Value(s[..8])
    ensures Normalized(s) && Value(s) == low + Place(s[8], 8)
  {
    hide Value, Place, Pow;
    Digit(s, 8);
    assert s[..9] == s;
    PowSmall();
    forall i | 0 <= i < |s|
      ensures s[i] < BASE
    {
      if i < 8 {
        assert s[i] == s[..8][i];
      }
    }
  }

  lemma PowSmall()
    ensures Pow(2, 24) == 0x100_0000 < BASE
  {
    assert Pow(2, 8) == 0x100;
    PowAdd(2, 8, 8);
    PowAdd(2, 16, 8);
  }

  lemma BytesFit(bytes: seq<uint8>)
    requires |bytes| == 32
    ensures BeValue(bytes) < TWO256
  {
    BeBound(bytes);
    PowMul(2, 8, 32);
    assert Pow(2, 8) == 0x100;
    Pow256();
  }

  /** Word i carries the weight 2^(32*i), which is the place of limb i shifted by 3*i bits. */
  lemma WordPlace(limb: int, i: nat)
    ensures Place(limb * Pow(2, 3 * i), i) == limb * Pow(0x100, 4 * i)
  {
    hide Pow;
    WeightPow(i);
    PowAdd(2, 3 * i, BITS * i);
    PowMul(2, 8, 4 * i);
    assert Pow(2, 8) == 0x100 by {
      BytePow();
    }
    assert limb * Pow(2, 3 * i) * Weight(i) == limb * (Pow(2, 3 * i) * Weight(i));
  }

  lemma BytePow()
    ensures Pow(2, 8) == 0x100
  {}

  lemma ReadStep(bytes: seq<uint8>, i: nat, temp: int, limb: uint32)
    requires |bytes| == 32 && i < 8 && limb == WordAt(bytes, i)
    requires temp >= 0
    ensures Place(Joined(temp, limb, 3 * i), i) + WordsBelow(bytes, i) == Place(temp, i) + WordsBelow(bytes, i + 1)
  {
    hide BeValue, Word, Place, Pow;
    var low := bytes[28 - 4 * i..];
    BeSplit(low, 4);
    assert low[..4] == bytes[28 - 4 * i..32 - 4 * i] && low[4..] == bytes[32 - 4 * i..];
    WordValue(low[..4]);
    PlaceAdd(temp, limb * Pow(2, 3 * i), i);
    WordPlace(limb, i);
  }

  // ------------------------------------------------------------------ writing

  /** The four bytes write_be stores. */
  function WordBytes(x: uint32): (b: seq<uint8>)
    ensures |b| == 4
  {
    [x / 0x100_0000, x / 0x1_0000 % 0x100, x / 0x100 % 0x100, x % 0x100]
  }

  lemma WordOfBytes(x: uint32)
    ensures Word(WordBytes(x)) == x
  {
    var q, r := x / 0x100, x % 0x100;
    var q', r' := q / 0x100, q % 0x100;
    DivDiv(x, 0x100, 0x100);
    DivDiv(x, 0x1_0000, 0x100);
    assert x == q * 0x100 + r && q == q' * 0x100 + r';
  }

  /** Word i of the output: the low bits come from limb i, the rest from limb i + 1. */
  function WrittenWord(hi: uint32, lo: uint32, i: nat): int
    requires i < 8
  {
    Shl32(hi, 29 - 3 * i) + Shr32(lo, 3 * i)
  }

  lemma WrittenWordValue(hi: uint32, lo: uint32, i: nat)
    requires i < 8 && lo < BASE
    ensures Pow(2, 3 * i) > 0 && Pow(2, 3 * i + 3) > 0
    ensures WrittenWord(hi, lo, i)
         == (hi % Pow(2, 3 * i + 3)) * Pow(2, 29 - 3 * i) + lo / Pow(2, 3 * i)
    ensures 0 <= WrittenWord(hi, lo, i) < TWO32
  {
    hide Pow;
    var a, b, c := Pow(2, 3 * i), Pow(2, 29 - 3 * i), Pow(2, 3 * i + 3);
    PowPositive(2, 3 * i);
    PowPositive(2, 29 - 3 * i);
    PowPositive(2, 3 * i + 3);
    PowAdd(2, 3 * i, 29 - 3 * i);
    PowAdd(2, 3 * i, 3);
    EightIsPow();
    LimbPow();
    var q, y := hi / c, hi % c;
    assert a * b == BASE && c == 8 * a;
    ShiftOut(hi, q, y, b, c);
    assert lo == lo / a * a + lo % a;
    QuotientRange(lo / a, a, lo % a, b);
    assert y * b <= TWO32 - b by {
      MulMonotone(y, c - 1, b);
      assert (c - 1) * b == c * b - b;
      assert c * b == 8 * (a * b);
    }
    MulMonotone(0, y, b);
  }

  lemma ShiftOut(hi: int, q: int, y: int, b: int, c: int)
    requires c > 0 && b > 0 && c * b == TWO32 && hi == q * c + y && 0 <= y < c
    ensures hi * b % TWO32 == y * b
  {
    assert q * c * b == q * (c * b);
    MulMonotone(y, c - 1, b);
    assert (c - 1) * b == c * b - b;
    MulMonotone(0, y, b);
    DivUnique(hi * b, TWO32, q, y * b);
  }

  /** Words below i and the low bits of limb i, which belong to them, make up the low limbs. */
  lemma WriteStep(x: seq<uint32>, i: nat)
    requires |x| == LIMBS && Normalized(x) && i < 8
    ensures Pow(2, 3 * i) > 0 && Pow(2, 3 * (i + 1)) > 0
    ensures Value(x[..i]) + Place(x[i] % Pow(2, 3 * i), i) + WrittenWord(x[i + 1], x[i], i) * Pow(0x100, 4 * i)
         == Value(x[..i + 1]) + Place(x[i + 1] % Pow(2, 3 * (i + 1)), i + 1)
  {
    hide Value, Place, Pow, WrittenWord;
    var a, b := Pow(2, 3 * i), Pow(2, 29 - 3 * i);
    WrittenWordValue(x[i + 1], x[i], i);
    assert 3 * (i + 1) == 3 * i + 3;
    var y, q, w := x[i + 1] % Pow(2, 3 * i + 3), x[i] / a, Pow(0x100, 4 * i);
    Digit(x, i);
    assert x[i] == q * a + x[i] % a;
    PlaceAdd(q * a, x[i] % a, i);
    WordPlace(q, i);
    PowAdd(2, 3 * i, 29 - 3 * i);
    LimbPow();
    PlaceUp(y, i);
    WordPlace(y * b, i);
    assert y * b * a == y * BASE;
    assert (y * b + q) * w == y * b * w + q * w;
  }

  /** The bytes written once the words from the top down to word i are stored. */
  function BytesOf(x: seq<uint32>, i: nat): (b: seq<uint8>)
    requires |x| == LIMBS && Normalized(x) && i <= 8
    ensures |b| == 32 - 4 * i
    decreases 8 - i
  {
    if i == 8 then [] else
      WrittenWordValue(x[i + 1], x[i], i);
      BytesOf(x, i + 1) + WordBytes(WrittenWord(x[i + 1], x[i], i))
  }

  lemma BytesOfTop(x: seq<uint32>)
    requires |x| == LIMBS && Normalized(x)
    ensures BytesOf(x, 8) == []
  {}

  lemma BytesOfNext(x: seq<uint32>, i: nat)
    requires |x| == LIMBS && Normalized(x) && i < 8
    ensures 0 <= WrittenWord(x[i + 1], x[i], i) < TWO32
    ensures BytesOf(x, i) == BytesOf(x, i + 1) + WordBytes(WrittenWord(x[i + 1], x[i], i))
  {
    WrittenWordValue(x[i + 1], x[i], i);
  }

  lemma BeAppendWord(b: seq<uint8>, w: uint32)
    ensures BeValue(b + WordBytes(w)) == BeValue(b) * TWO32 + w
  {
    hide BeValue, WordBytes, Word;
    var c := WordBytes(w);
    BeSplit(b + c, |b|);
    assert (b + c)[..|b|] == b && (b + c)[|b|..] == c;
    WordValue(c);
    WordOfBytes(w);
    assert Pow(0x100, 4) == TWO32;
  }

  /** Words written so far, above what the limbs below still have to contribute. */
  lemma {:induction false} BytesOfValue(x: seq<uint32>, i: nat)
    requires |x| == LIMBS && Normalized(x) && Value(x) < TWO256 && i <= 8
    ensures Pow(2, 3 * i) > 0
    ensures BeValue(BytesOf(x, i)) * Pow(0x100, 4 * i) + Value(x[..i]) + Place(x[i] % Pow(2, 3 * i), i) == Value(x)
    decreases 8 - i
  {
    hide Value, Place, Pow, WrittenWord, BeValue, WordBytes;
    if i == 8 {
      TopLimbBound(x);
      BeEmpty();
    } else {
      BytesOfValue(x, i + 1);
      WrittenWordValue(x[i + 1], x[i], i);
      var w := WrittenWord(x[i + 1], x[i], i);
      BeAppendWord(BytesOf(x, i + 1), w);
      WriteStep(x, i);
      WordShift(BeValue(BytesOf(x, i + 1)), w, i);
    }
  }

  lemma WordShift(high: int, w: int, i: nat)
    ensures (high * TWO32 + w) * Pow(0x100, 4 * i) == high * Pow(0x100, 4 * (i + 1)) + w * Pow(0x100, 4 * i)
  {
    hide Pow;
    PowAdd(0x100, 4, 4 * i);
    var p := Pow(0x100, 4 * i);
    assert Pow(0x100, 4) == TWO32 by {
      WordIsPow();
    }
    assert high * (TWO32 * p) == high * TWO32 * p;
  }

  lemma WordIsPow()
    ensures Pow(0x100, 4) == TWO32
  {}

  lemma BytesOfAll(x: seq<uint32>)
    requires |x| == LIMBS && Normalized(x) && Value(x) < TWO256
    ensures BeValue(BytesOf(x, 0)) == Value(x)
  {
    BytesOfValue(x, 0);
    ValueEmpty();
    PlaceUp(0, 0);
    PowZero(2);
  }

  /** write_be. */
  method StoreWord(out: array<uint8>, at: nat, x: uint32)
    requires at + 4 <= out.Length
    modifies out
    ensures out[..] == old(out[..at]) + WordBytes(x) + old(out[at + 4..])
  {
    var b := WordBytes(x);
    out[at], out[at + 1], out[at + 2], out[at + 3] := b[0], b[1], b[2], b[3];
  }

  /** out[off..off + 32] = x as a big-endian number. */
  method WriteBe(x: array<uint32>, out: array<uint8>, off: nat)
    requires Num(x) && Val(x) < TWO256 && off + 32 <= out.Length
    modifies out
    ensures BeValue(out[off..off + 32]) == Val(x)
    ensures out[..off] == old(out[..off]) && out[off + 32..] == old(out[off + 32..])
  {
    hide Value, WrittenWord, WordBytes, BeValue, BytesOf;
    ghost var xs, rest := x[..], out[off + 32..];
    BytesOfTop(xs);
    var temp: uint32 := x[LIMBS - 1];
    for i := LIMBS - 1 downto 0
      invariant temp == xs[i] && x[..] == xs
      invariant out[..off + 32 - 4 * i] == old(out[..off]) + BytesOf(xs, i)
      invariant out[off + 32..] == rest
    {
      var limb: uint32 := x[i];
      WrittenWordValue(temp, limb, i);
      BytesOfNext(xs, i);
      StoreWord(out, off + 28 - 4 * i, WrittenWord(temp, limb, i));
      assert out[..off + 32 - 4 * i] == old(out[..off]) + (BytesOf(xs, i + 1) + WordBytes(WrittenWord(temp, limb, i)));
      temp := limb;
    }
    BytesOfAll(xs);
    assert out[off..off + 32] == out[..off + 32][off..];
    assert out[..off] == out[..off + 32][..off];
  }

  lemma TopLimbBound(x: seq<uint32>)
    requires |x| == LIMBS && Normalized(x) && Value(x) < TWO256
    ensures Pow(2, 24) > 0
    ensures Value(x[..8]) + Place(x[8] % Pow(2, 24), 8) == Value(x)
  {
    PowSmall();
    Digit(x, 8);
    assert x[..9] == x;
    ValueBound(x[..8]);
    TopLimbFits(x[8], Value(x[..8]));
  }

  lemma TopLimbFits(top: int, low: int)
    requires low >= 0 && low + Place(top, 8) < TWO256
    ensures top < 0x100_0000
  {
    WeightConstants();
  }

  // ----------------------------------------------------- fixed-width byte strings

  function Zeros(n: nat): (b: seq<uint8>)
    ensures |b| == n
  {
    seq(n, i => 0)
  }

  /** The n low bytes of v, most significant first. */
  function BeBytes(v: nat, n: nat): (b: seq<uint8>)
    ensures |b| == n
  {
    if n == 0 then [] else BeBytes(v / 0x100, n - 1) + [v % 0x100]
  }

  /** The n low bytes of v, least significant first. */
  function LittleEndian(v: nat, n: nat): (b: seq<uint8>)
    ensures |b| == n
  {
    if n == 0 then [] else [v % 0x100] + LittleEndian(v / 0x100, n - 1)
  }

  lemma {:induction false} BeBytesValue(v: nat, n: nat)
    requires v < Pow(0x100, n)
    ensures BeValue(BeBytes(v, n)) == v
  {
    if n > 0 {
      var q := v / 0x100;
      QuotientBelow(v, 0x100, Pow(0x100, n - 1));
      BeBytesValue(q, n - 1);
      BeSnoc(BeBytes(q, n - 1), v % 0x100);
    }
  }

  lemma QuotientBelow(v: nat, b: nat, m: int)
    requires b > 0 && v < b * m
    ensures 0 <= v / b < m
  {
    DivMonotone(v, b * m - 1, b);
    DivUnique(b * m - 1, b, m - 1, b - 1);
    DivMonotone(0, v, b);
  }

  /** Whatever was written big-endian in 32 bytes is BeBytes of the value. */
  lemma WrittenBytes(b: seq<uint8>, v: nat)
    requires |b| == 32 && BeValue(b) == v && v < TWO256
    ensures b == BeBytes(v, 32)
  {
    hide BeValue, Pow, BeBytes;
    BytesPow();
    BeBytesValue(v, 32);
    BeUnique(b, BeBytes(v, 32));
  }

  lemma BytesPow()
    ensures Pow(0x100, 32) == TWO256
  {
    hide Pow;
    Pow256();
    BytePow();
    PowMul(2, 8, 32);
  }

  // ------------------------------------------------------------ single bytes

  /** The two byte orders are each other's reverse. */
  lemma {:induction false} ByteOrders(v: nat, n: nat, k: nat)
    requires k < n
    ensures LittleEndian(v, n)[k] == BeBytes(v, n)[n - 1 - k]
    decreases n
  {
    if k > 0 {
      ByteOrders(v / 0x100, n - 1, k - 1);
    }
  }

  /** The most significant byte stands first. */
  lemma BigEndianExample()
    ensures BeValue([1, 2, 3]) == 0x01_0203 && BeBytes(0x01_0203, 4) == [0, 1, 2, 3]
  {
    BeSnoc([1, 2], 3);
    BeSnoc([1], 2);
    BeSnoc([], 1);
    assert [1, 2] + [3] == [1, 2, 3] && [1] + [2] == [1, 2] && [] + [1] == [1];
    assert BeBytes(0x01, 2) == BeBytes(0, 1) + [1];
    assert BeBytes(0x01_02, 3) == BeBytes(1, 2) + [2];
    assert BeBytes(0x01_0203, 4) == BeBytes(0x01_02, 3) + [3];
  }
}
