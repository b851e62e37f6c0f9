/** Addresses: bytes regrouped into 5-bit symbols and encoded in Bech32 under the prefix "io". */
module AddressEncoder {
  import opened Bech32
  import Law = Bech32Law

  // -------------------------------------------------------------------- bits

  function Bit(x: byte, b: nat): byte {
    match b
    case 0 => x & 1
    case 1 => (x >> 1) & 1
    case 2 => (x >> 2) & 1
    case 3 => (x >> 3) & 1
    case 4 => (x >> 4) & 1
    case 5 => (x >> 5) & 1
    case 6 => (x >> 6) & 1
    case _ => (x >> 7) & 1
  }

  function Placed(bit: byte, b: nat): byte {
    match b
    case 0 => bit
    case 1 => bit << 1
    case 2 => bit << 2
    case 3 => bit << 3
    case _ => bit << 4
  }

  lemma BitRange(x: byte, b: nat)
    ensures Bit(x, b) == 0 || Bit(x, b) == 1
  {}

  lemma BitsDetermine(x: byte, y: byte)
    requires forall b :: 0 <= b < 8 ==> Bit(x, b) == Bit(y, b)
    ensures x == y
  {
    assert Bit(x, 0) == Bit(y, 0) && Bit(x, 1) == Bit(y, 1) && Bit(x, 2) == Bit(y, 2) && Bit(x, 3) == Bit(y, 3);
    assert Bit(x, 4) == Bit(y, 4) && Bit(x, 5) == Bit(y, 5) && Bit(x, 6) == Bit(y, 6) && Bit(x, 7) == Bit(y, 7);
  }

  /** Bit t of a byte string, most significant bit of the first byte first. */
  function BitAt(bytes: seq<byte>, t: nat): byte
    requires t < 8 * |bytes|
  {
    Bit(bytes[t / 8], 7 - t % 8)
  }

  /** The symbol whose first k bits are those from position off on. */
  function Symbol5(bytes: seq<byte>, off: nat, k: nat): byte
    requires k <= 5 && off + k <= 8 * |bytes|
  {
    if k == 0 then 0 else Symbol5(bytes, off, k - 1) | Placed(BitAt(bytes, off + k - 1), 5 - k)
  }

  /** The complete groups of five bits, and a zero symbol where bits are left over. */
  function Regrouped(bytes: seq<byte>): seq<byte> {
    seq(8 * |bytes| / 5, i requires 0 <= i < 8 * |bytes| / 5 => Symbol5(bytes, 5 * i, 5))
    + (if 8 * |bytes| % 5 == 0 then [] else [0])
  }

  lemma BitAtRange(bytes: seq<byte>, t: nat)
    requires t < 8 * |bytes|
    ensures BitAt(bytes, t) <= 1
  {
    hide Bit;
    BitRange(bytes[t / 8], 7 - t % 8);
  }

  lemma FiveBits(b0: byte, b1: byte, b2: byte, b3: byte, b4: byte, j: nat)
    requires b0 <= 1 && b1 <= 1 && b2 <= 1 && b3 <= 1 && b4 <= 1 && j < 5
    ensures var s := 0 | (b0 << 4) | (b1 << 3) | (b2 << 2) | (b3 << 1) | b4;
      && s < 32
      && Bit(s, 4 - j) == if j == 0 then b0 else if j == 1 then b1 else if j == 2 then b2 else if j == 3 then b3 else b4
  {}

  /** A symbol shows each of its five bits. */
  lemma SymbolBits(bytes: seq<byte>, off: nat, j: nat)
    requires off + 5 <= 8 * |bytes| && j < 5
    ensures Symbol5(bytes, off, 5) < 32
    ensures Bit(Symbol5(bytes, off, 5), 4 - j) == BitAt(bytes, off + j)
  {
    hide Bit;
    var b0, b1, b2 := BitAt(bytes, off), BitAt(bytes, off + 1), BitAt(bytes, off + 2);
    var b3, b4 := BitAt(bytes, off + 3), BitAt(bytes, off + 4);
    BitAtRange(bytes, off);
    BitAtRange(bytes, off + 1);
    BitAtRange(bytes, off + 2);
    BitAtRange(bytes, off + 3);
    BitAtRange(bytes, off + 4);
    assert Symbol5(bytes, off, 1) == 0 | (b0 << 4);
    assert Symbol5(bytes, off, 2) == 0 | (b0 << 4) | (b1 << 3);
    assert Symbol5(bytes, off, 3) == 0 | (b0 << 4) | (b1 << 3) | (b2 << 2);
    assert Symbol5(bytes, off, 4) == 0 | (b0 << 4) | (b1 << 3) | (b2 << 2) | (b3 << 1);
    FiveBits(b0, b1, b2, b3, b4, j);
  }

  lemma RegroupedSymbols(bytes: seq<byte>)
    ensures Symbols(Regrouped(bytes))
  {
    hide Symbol5;
    forall i | 0 <= i < 8 * |bytes| / 5
      ensures Symbol5(bytes, 5 * i, 5) < 32
    {
      SymbolBits(bytes, 5 * i, 0);
    }
  }

  lemma BitIsShift(x: byte, b: nat)
    requires b < 8
    ensures Bit(x, b) == (x >> b) & 1
  {}

  /** Bit j of symbol i is bit 5i + j of the bytes, highest bits first; an incomplete group becomes 0. */
  lemma RegroupedBits(bytes: seq<byte>, i: nat, j: nat)
    requires 5 * i < 8 * |bytes| && j < 5
    ensures |Regrouped(bytes)| == (8 * |bytes| + 4) / 5 && Regrouped(bytes)[i] < 32
    ensures var t := 5 * i + j;
      (Regrouped(bytes)[i] >> (4 - j)) & 1
      == if 5 * i + 5 <= 8 * |bytes| then (bytes[t / 8] >> (7 - t % 8)) & 1 else 0
  {
    hide Bit, Symbol5;
    if 5 * i + 5 <= 8 * |bytes| {
      var t := 5 * i + j;
      SymbolBits(bytes, 5 * i, j);
      BitIsShift(Symbol5(bytes, 5 * i, 5), 4 - j);
      BitIsShift(bytes[t / 8], 7 - t % 8);
    } else {
      ShiftedZero(4 - j);
    }
  }

  lemma ShiftedZero(b: nat)
    requires b < 8
    ensures ((0 as byte) >> b) & 1 == 0
  {}

  /** Equal symbols mean equal bits, as far as they reach. */
  lemma SameBit(a: seq<byte>, b: seq<byte>, t: nat)
    requires |a| == |b| && Regrouped(a) == Regrouped(b) && t < 5 * (8 * |a| / 5)
    ensures BitAt(a, t) == BitAt(b, t)
  {
    hide Symbol5, BitAt, Bit;
    var i, j := t / 5, t % 5;
    SymbolBits(a, 5 * i, j);
    SymbolBits(b, 5 * i, j);
    assert Regrouped(a)[i] == Symbol5(a, 5 * i, 5) && Regrouped(b)[i] == Symbol5(b, 5 * i, 5);
  }

  /** When no bits are left over, the symbols determine the bytes. */
  lemma RegroupedInjective(a: seq<byte>, b: seq<byte>)
    requires |a| % 5 == 0 && |b| % 5 == 0 && Regrouped(a) == Regrouped(b)
    ensures a == b
  {
    hide Regrouped, Bit;
    LengthRegrouped(a);
    LengthRegrouped(b);
    forall i | 0 <= i < |a|
      ensures a[i] == b[i]
    {
      forall k | 0 <= k < 8
        ensures Bit(a[i], k) == Bit(b[i], k)
      {
        var t := 8 * i + (7 - k);
        SameBit(a, b, t);
        assert t / 8 == i && t % 8 == 7 - k;
      }
      BitsDetermine(a[i], b[i]);
    }
  }

  lemma LengthRegrouped(a: seq<byte>)
    requires |a| % 5 == 0
    ensures 8 * |a| % 5 == 0 && 5 * |Regrouped(a)| == 8 * |a|
  {
    hide Symbol5;
    var k := |a| / 5;
    assert 8 * |a| == 5 * (8 * k);
  }

  ghost predicate DeterminesBytes(n: nat) {
    forall a: seq<byte>, b: seq<byte> :: |a| == n && |b| == n && Regrouped(a) == Regrouped(b) ==> a == b
  }

  /** The last bit is left over. */
  lemma LastBitLost(n: nat)
    requires n % 5 != 0
    ensures !DeterminesBytes(n)
  {
    hide Symbol5;
    var a, b := seq(n, i => 0 as byte), seq(n - 1, i => 0 as byte) + [1];
    forall i | 0 <= i < 8 * n / 5
      ensures Symbol5(a, 5 * i, 5) == Symbol5(b, 5 * i, 5)
    {
      SameSymbol(a, b, 5 * i, 5);
    }
    assert Regrouped(a) == Regrouped(b);
    assert a[n - 1] == 0 && b[n - 1] == 1;
  }

  lemma {:induction false} SameSymbol(a: seq<byte>, b: seq<byte>, off: nat, k: nat)
    requires |a| == |b| > 0 && k <= 5 && off + k < 8 * |a|
    requires a[..|a| - 1] == b[..|b| - 1] && a[|a| - 1] == 0 && b[|b| - 1] == 1
    ensures Symbol5(a, off, k) == Symbol5(b, off, k)
  {
    hide Placed, Bit;
    if k > 0 {
      SameSymbol(a, b, off, k - 1);
      var t := off + k - 1;
      assert t / 8 < |a| - 1 ==> a[t / 8] == a[..|a| - 1][t / 8] && b[t / 8] == b[..|b| - 1][t / 8];
      LowBitOnly(7 - t % 8);
    }
  }

  lemma LowBitOnly(b: nat)
    ensures 0 < b < 8 ==> Bit(0, b) == Bit(1, b)
  {}

  /** Regrouping keeps every bit exactly when the number of bytes is a multiple of five. */
  lemma DeterminesExactly(n: nat)
    ensures DeterminesBytes(n) <==> n % 5 == 0
  {
    hide Regrouped;
    if n % 5 == 0 {
      forall a: seq<byte>, b: seq<byte> | |a| == n && |b| == n && Regrouped(a) == Regrouped(b)
        ensures a == b
      {
        RegroupedInjective(a, b);
      }
    } else {
      LastBitLost(n);
    }
  }

  // ------------------------------------------------------------------ addresses

  const PREFIX: seq<byte> := [105, 111]

  ghost function Address(bytes: seq<byte>): seq<byte> {
    Encoded(Encoding.Bech32, PREFIX, Regrouped(bytes))
  }

  lemma PrefixValid()
    ensures ValidHrp(PREFIX)
  {}

  /** An address is "io1", the symbols of the bytes and six symbols that make their polynomial leave 1. */
  lemma AddressMeaning(bytes: seq<byte>)
    ensures exists check ::
      && |check| == 6 && Law.Spells(Address(bytes), [105, 111], Regrouped(bytes) + check)
      && exists q :: Law.Divides(Law.Polynomial([105, 111], Regrouped(bytes) + check), q, [0, 0, 0, 0, 0, 1])
  {
    hide Regrouped, Encoded, Law.Spells, Law.Divides, Law.Polynomial;
    RegroupedSymbols(bytes);
    Law.EncodedMeaning(Encoding.Bech32, PREFIX, Regrouped(bytes));
  }

  /** An address decodes to the symbols of its bytes, up to the length limit of 90. */
  lemma AddressDecodes(bytes: seq<byte>)
    ensures Decoded(Address(bytes))
         == if 9 + |Regrouped(bytes)| <= 90 then Decoding(Encoding.Bech32, PREFIX, Regrouped(bytes)) else FAILED
  {
    hide Regrouped, Encoded, Decoded;
    RegroupedSymbols(bytes);
    PrefixValid();
    DecodeEncode(Encoding.Bech32, PREFIX, Regrouped(bytes));
  }

  /** An address determines its bytes. */
  lemma AddressDetermines(a: seq<byte>, b: seq<byte>)
    requires |a| % 5 == 0 && |b| % 5 == 0 && Address(a) == Address(b)
    ensures a == b
  {
    hide Regrouped, Checksum, Character;
    RegroupedSymbols(a);
    RegroupedSymbols(b);
    var va := Regrouped(a) + Checksum(Encoding.Bech32, PREFIX, Regrouped(a));
    var vb := Regrouped(b) + Checksum(Encoding.Bech32, PREFIX, Regrouped(b));
    ChecksumSymbols(Encoding.Bech32, PREFIX, Regrouped(a));
    ChecksumSymbols(Encoding.Bech32, PREFIX, Regrouped(b));
    DataPart(va);
    DataPart(vb);
    assert Address(a)[|PREFIX| + 1..] == Characters(va);
    assert Address(b)[|PREFIX| + 1..] == Characters(vb);
    assert va[..|va| - 6] == Regrouped(a) && vb[..|vb| - 6] == Regrouped(b);
    RegroupedInjective(a, b);
  }

  // ------------------------------------------------------------------- the code

  lemma SymbolEmpty(bytes: seq<byte>)
    ensures forall off: nat :: off <= 8 * |bytes| ==> Symbol5(bytes, off, 0) == 0
  {}

  lemma SymbolStep(bytes: seq<byte>, off: nat, k: nat)
    requires k < 5 && off + k < 8 * |bytes|
    ensures Symbol5(bytes, off, k + 1) == Symbol5(bytes, off, k) | Placed(BitAt(bytes, off + k), 4 - k)
  {
    hide Bit, Placed;
  }

  method ConvertBytesTo5Bit(bytes: seq<byte>) returns (out: seq<byte>)
    ensures out == Regrouped(bytes)
  {
    hide Bit, Placed, Symbol5;
    var bits: seq<byte> := [];
    for i := 0 to |bytes|
      invariant |bits| == 8 * i && forall t :: 0 <= t < |bits| ==> bits[t] == BitAt(bytes, t)
    {
      for b := 8 downto 0
        invariant |bits| == 8 * i + 8 - b && forall t :: 0 <= t < |bits| ==> bits[t] == BitAt(bytes, t)
      {
        assert |bits| / 8 == i && 7 - |bits| % 8 == b;
        bits := bits + [Bit(bytes[i], b)];
      }
    }
    var outSize, remainder := |bits| / 5, |bits| % 5;
    var symbols := new byte[outSize](i => 0);
    var current := 0;
    SymbolEmpty(bytes);
    for i := 0 to outSize
      invariant current == 5 * i
      invariant forall j :: 0 <= j < i ==> symbols[j] == Symbol5(bytes, 5 * j, 5)
      invariant forall j :: i <= j < outSize ==> symbols[j] == 0
    {
      for b := 5 downto 0
        invariant current == 5 * i + 5 - b
        invariant symbols[i] == Symbol5(bytes, 5 * i, 5 - b)
        invariant forall j :: 0 <= j < i ==> symbols[j] == Symbol5(bytes, 5 * j, 5)
        invariant forall j :: i < j < outSize ==> symbols[j] == 0
      {
        SymbolStep(bytes, 5 * i, 4 - b);
        symbols[i] := symbols[i] | Placed(bits[current], b);
        current := current + 1;
      }
    }
    out := symbols[..];
    if remainder != 0 {
      out := out + [0];
      assert |bits| >= 8;
      // the bits left over go into the list of bits itself, where nothing reads them again
      for b := 5 downto 0
        invariant current <= |bits| == 8 * |bytes|
      {
        if current < |bits| {
          bits := bits[outSize - 1 := bits[outSize - 1] | Placed(bits[current], b)];
          current := current + 1;
        }
      }
    }
  }

  method EncodeAddress(bytes: seq<byte>) returns (encoded: seq<byte>)
    ensures encoded == Address(bytes)
  {
    RegroupedSymbols(bytes);
    var symbols := ConvertBytesTo5Bit(bytes);
    encoded := Encode(Encoding.Bech32, PREFIX, symbols);
  }
}
