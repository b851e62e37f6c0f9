/** Base58 encoding and decoding of byte strings. */
module Base58 {
  import opened ModArith
  import opened Limbs
  import opened Radix
  import opened ByteOrder
  import opened Wrappers

  const BASE58: nat := 58

  // ------------------------------------------------------------ the alphabet

  /** b58digits_ordered: digits, capitals without I and O, and small letters without l. */
  function Letter(d: int): (c: uint8)
    requires 0 <= d < BASE58
  {
    if d < 9 then 49 + d
    else if d < 17 then 56 + d
    else if d < 22 then 57 + d
    else if d < 33 then 58 + d
    else if d < 44 then 64 + d
    else 65 + d
  }

  /** b58digits_map, with -1 for bytes outside the alphabet. */
  function DigitOf(c: uint8): (d: int)
    ensures -1 <= d < BASE58
  {
    if 49 <= c <= 57 then c - 49
    else if 65 <= c <= 72 then c - 56
    else if 74 <= c <= 78 then c - 57
    else if 80 <= c <= 90 then c - 58
    else if 97 <= c <= 107 then c - 64
    else if 109 <= c <= 122 then c - 65
    else -1
  }

  lemma AlphabetInverse(d: int, c: uint8)
    ensures 0 <= d < BASE58 ==> DigitOf(Letter(d)) == d
    ensures DigitOf(c) >= 0 ==> Letter(DigitOf(c)) == c
  {}

  function Letters(digits: seq<int>): (s: seq<uint8>)
    requires Digits(BASE58, digits)
    ensures |s| == |digits|
  {
    seq(|digits|, i requires 0 <= i < |digits| => Letter(digits[i]))
  }

  function Values(s: seq<uint8>): (digits: seq<int>)
    ensures |digits| == |s|
  {
    seq(|s|, i requires 0 <= i < |s| => DigitOf(s[i]))
  }

  lemma LettersInverse(digits: seq<int>)
    requires Digits(BASE58, digits)
    ensures Values(Letters(digits)) == digits
  {
    forall i | 0 <= i < |digits|
      ensures DigitOf(Letter(digits[i])) == digits[i]
    {
      AlphabetInverse(digits[i], 0);
    }
  }

  lemma ValuesInverse(s: seq<uint8>)
    requires Digits(BASE58, Values(s))
    ensures Letters(Values(s)) == s
  {
    forall i | 0 <= i < |s|
      ensures DigitOf(s[i]) >= 0 && Letter(DigitOf(s[i])) == s[i]
    {
      assert Values(s)[i] == DigitOf(s[i]);
      AlphabetInverse(0, s[i]);
    }
  }

  // ----------------------------------------------------------- specification

  function ZeroDigits(k: nat): (z: seq<int>)
    ensures |z| == k && Digits(BASE58, z)
  {
    seq(k, i => 0)
  }

  /** One digit 0 for every leading zero byte, then the shortest digit string for the number. */
  ghost function Encoded(bin: seq<uint8>): seq<uint8> {
    Letters(ZeroDigits(LeadingZeros(bin)) + Shortest(BASE58, BeValue(bin)))
  }

  /** What decoding into n bytes gives. */
  ghost function Decoded(s: seq<uint8>, n: nat): Option<seq<uint8>> {
    var digits := Values(s);
    if n == 0 || !Digits(BASE58, digits) then None
    else
      Bound(BASE58, digits);
      var v := Number(BASE58, digits);
      if v >= Pow(0x100, n) then None
      else
        var bytes, k := BeBytes(v, n), LeadingZeros(digits);
        if k > LeadingZeros(bytes) then None else Some(bytes[LeadingZeros(bytes) - k..])
  }

  /** The digits of an encoding: its leading zeros are those of the bytes, its value theirs. */
  lemma EncodedDigits(bin: seq<uint8>)
    ensures var digits := Values(Encoded(bin));
      && Digits(BASE58, digits)
      && Number(BASE58, digits) == BeValue(bin)
      && LeadingZeros(digits) == LeadingZeros(bin)
  {
    hide BeValue;
    var k, tail := LeadingZeros(bin), Shortest(BASE58, BeValue(bin));
    var digits := ZeroDigits(k) + tail;
    LettersInverse(digits);
    ShortestValue(BASE58, BeValue(bin));
    LeadingZerosVanish(BASE58, digits, k);
    assert digits[k..] == tail;
    LeadingZerosIs(digits, k);
  }

  /** Padding with zero bytes at the front changes neither the value nor what follows the zeros. */
  lemma PaddedBytes(bin: seq<uint8>, n: nat)
    requires |bin| <= n
    ensures BeValue(bin) < Pow(0x100, n)
    ensures var bytes := BeBytes(BeValue(bin), n);
      bytes[n - |bin|..] == bin && LeadingZeros(bytes) == n - |bin| + LeadingZeros(bin)
  {
    hide Pow, Number;
    var pad := n - |bin|;
    var padded: seq<uint8> := seq(pad, i => 0) + bin;
    LeadingZerosVanish(0x100, padded, pad);
    assert padded[pad..] == bin;
    BeBound(padded);
    BeBytesValue(BeValue(bin), n);
    BeUnique(padded, BeBytes(BeValue(bin), n));
    LeadingZerosIs(padded, pad + LeadingZeros(bin));
  }

  /** Decoding undoes encoding in every buffer that is long enough. */
  lemma DecodeEncode(bin: seq<uint8>, n: nat)
    requires |bin| <= n && n > 0
    ensures Decoded(Encoded(bin), n) == Some(bin)
  {
    hide BeValue, BeBytes, Number, Pow;
    EncodedDigits(bin);
    PaddedBytes(bin, n);
  }

  /** What decodes has the value and the leading zeros of its digits. */
  lemma DecodedDigits(s: seq<uint8>, n: nat)
    requires Decoded(s, n).Some?
    ensures var digits, bin := Values(s), Decoded(s, n).value;
      && Digits(BASE58, digits)
      && Number(BASE58, digits) == BeValue(bin)
      && LeadingZeros(digits) == LeadingZeros(bin)
  {
    hide BeBytes, Pow, Number;
    var digits, bin := Values(s), Decoded(s, n).value;
    Bound(BASE58, digits);
    var v, k := Number(BASE58, digits), LeadingZeros(digits);
    var bytes := BeBytes(v, n);
    BeBytesValue(v, n);
    LeadingZerosVanish(0x100, bytes, LeadingZeros(bytes) - k);
    LeadingZerosIs(bin, k);
  }

  /** Encoding undoes decoding: every string that decodes is the encoding of what it decodes to. */
  lemma EncodeDecode(s: seq<uint8>, n: nat)
    requires Decoded(s, n).Some?
    ensures Encoded(Decoded(s, n).value) == s
  {
    hide Number, Decoded, BeValue, Shortest;
    DecodedDigits(s, n);
    var digits := Values(s);
    var k := LeadingZeros(digits);
    LeadingZerosVanish(BASE58, digits, k);
    ShortestIs(BASE58, digits[k..]);
    assert digits == ZeroDigits(k) + digits[k..];
    ValuesInverse(s);
  }

  // ---------------------------------------------------------------- encoding

  /** The digit buffer for k bytes has room for 256^k, and without its front digit for one byte less. */
  lemma BufferSuffices(k: nat)
    ensures Pow(0x100, k) <= Pow(BASE58, k * 138 / 100 + 1)
    ensures k > 0 ==> Pow(0x100, k - 1) <= Pow(BASE58, k * 138 / 100)
  {
    FewBytes(k % 8);
    Blocks(k / 8, k % 8, k % 8 * 138 / 100 + 1, k * 138 / 100 + 1);
    if k > 0 {
      var m := k - 1;
      FewBytes(m % 8);
      Blocks(m / 8, m % 8, (m % 8 + 1) * 138 / 100, k * 138 / 100);
    }
  }

  /** q blocks of eight bytes fit in 11 digits each. */
  lemma Blocks(q: nat, r: nat, e: nat, size: nat)
    requires Pow(0x100, r) <= Pow(BASE58, e) && 11 * q + e <= size
    ensures Pow(0x100, 8 * q + r) <= Pow(BASE58, size)
  {
    hide Pow;
    EightBytes(q);
    PowAdd(0x100, 8 * q, r);
    PowAdd(BASE58, 11 * q, e);
    PowPositive(0x100, r);
    PowPositive(BASE58, 11 * q);
    MulMonotone(Pow(0x100, 8 * q), Pow(BASE58, 11 * q), Pow(0x100, r));
    MulMonotone(Pow(0x100, r), Pow(BASE58, e), Pow(BASE58, 11 * q));
    PowMonotone(BASE58, 11 * q + e, size);
  }

  lemma {:induction false} EightBytes(q: nat)
    ensures Pow(0x100, 8 * q) <= Pow(BASE58, 11 * q)
  {
    hide Pow;
    if q == 0 {
      PowZero(0x100);
      PowZero(BASE58);
    } else {
      EightBytes(q - 1);
      FewPowers();
      PowAdd(0x100, 8 * (q - 1), 8);
      PowAdd(BASE58, 11 * (q - 1), 11);
      PowPositive(BASE58, 11 * (q - 1));
      PowPositive(0x100, 8);
      MulMonotone(Pow(0x100, 8 * (q - 1)), Pow(BASE58, 11 * (q - 1)), Pow(0x100, 8));
      MulMonotone(Pow(0x100, 8), Pow(BASE58, 11), Pow(BASE58, 11 * (q - 1)));
    }
  }

  lemma FewPowers()
    ensures Pow(0x100, 8) <= Pow(BASE58, 11)
  {
    assert Pow(0x100, 8) == 0x1_0000_0000_0000_0000;
    assert Pow(BASE58, 11) == 24986644000165537792;
  }

  /** The remaining bytes, case by case. */
  lemma FewBytes(r: nat)
    requires r < 8
    ensures Pow(0x100, r) <= Pow(BASE58, r * 138 / 100 + 1)
    ensures Pow(0x100, r) <= Pow(BASE58, (r + 1) * 138 / 100)
  {
    if r < 4 {
      assert Pow(0x100, 0) == 1 && Pow(0x100, 1) == 0x100 && Pow(0x100, 2) == 0x1_0000 && Pow(0x100, 3) == 0x100_0000;
      assert Pow(BASE58, 1) == 58 && Pow(BASE58, 2) == 3364 && Pow(BASE58, 3) == 195112;
      assert Pow(BASE58, 4) == 11316496 && Pow(BASE58, 5) == 656356768;
    } else if r < 6 {
      assert Pow(0x100, 4) == 0x1_0000_0000 && Pow(0x100, 5) == 0x100_0000_0000;
      assert Pow(BASE58, 6) == 38068692544 && Pow(BASE58, 7) == 2207984167552 && Pow(BASE58, 8) == 128063081718016;
    } else {
      assert Pow(0x100, 6) == 0x1_0000_0000_0000 && Pow(0x100, 7) == 0x100_0000_0000_0000;
      assert Pow(BASE58, 9) == 7427658739644928 && Pow(BASE58, 10) == 430804206899405824;
      assert Pow(BASE58, 11) == 24986644000165537792;
    }
  }

  lemma AppendFull(b: seq<int>, t: seq<int>, byte: int, carry: int)
    requires |b| == |t| && Digits(BASE58, t) && carry >= 0
    requires Tail(BASE58, t, 0) + carry * Pow(BASE58, |b|) == 256 * Tail(BASE58, b, 0) + byte
    requires Number(BASE58, b) * 256 + byte < Pow(BASE58, |b|)
    ensures Number(BASE58, t) == Number(BASE58, b) * 256 + byte
  {
    hide Pow, Number;
    ScaleEnd(BASE58, 256, b, t, byte, carry);
    Bound(BASE58, t);
    PowPositive(BASE58, |b|);
    NoCarry(carry, Pow(BASE58, |b|), Number(BASE58, t), Number(BASE58, b) * 256 + byte);
  }

  lemma AppendPartial(b: seq<int>, t: seq<int>, j: nat, byte: int)
    requires j < |b| == |t| && (forall k :: 0 <= k <= j ==> b[k] == 0 && t[k] == 0)
    requires Tail(BASE58, t, j + 1) + 0 * Pow(BASE58, |b| - 1 - j) == 256 * Tail(BASE58, b, j + 1) + byte
    ensures Number(BASE58, t) == Number(BASE58, b) * 256 + byte
  {
    hide Pow, Number;
    TailEnds(BASE58, t, j + 1);
    TailEnds(BASE58, b, j + 1);
  }

  /** buf = buf * 256 + byte. Digits up to high are known to be zero; the new high is returned. */
  method AppendByte(buf: array<uint8>, byte: uint8, high: nat) returns (j: nat)
    requires high < buf.Length && Digits(BASE58, buf[..]) && forall k :: 0 <= k <= high ==> buf[k] == 0
    requires Number(BASE58, buf[..]) * 256 + byte < Pow(BASE58, buf.Length)
    modifies buf
    ensures Digits(BASE58, buf[..]) && Number(BASE58, buf[..]) == old(Number(BASE58, buf[..])) * 256 + byte
    ensures j <= high && (j == 0 || forall k :: 0 <= k <= j ==> buf[k] == 0)
  {
    hide Number, Pow, Tail;
    ghost var b, last := buf[..], false;
    ScaleNothing(BASE58, 256, b, byte);
    var n := buf.Length;
    var carry: int := byte;
    j := n - 1;
    while j > high || carry != 0
      invariant !last && j < n && 0 <= carry < 256 && Digits(BASE58, buf[..])
      invariant forall k :: 0 <= k <= j ==> buf[k] == b[k]
      invariant Tail(BASE58, buf[..], j + 1) + carry * Pow(BASE58, n - 1 - j) == 256 * Tail(BASE58, b, j + 1) + byte
      decreases j
    {
      ghost var s, c := buf[..], carry;
      carry := carry + 256 * buf[j] as int;
      buf[j] := carry % 58;
      carry := carry / 58;
      ScaleDigit(BASE58, 256, b, s, buf[..], j, byte, c, carry);
      if j == 0 {
        AppendFull(b, buf[..], byte, carry);
        last := true;
        break;
      }
      j := j - 1;
    }
    if !last {
      AppendPartial(b, buf[..], j, byte);
    }
  }

  lemma LeadingZerosOnly(s: seq<uint8>, z: nat)
    requires z <= |s| && forall k :: 0 <= k < z ==> s[k] == 0
    ensures BeValue(s[..z]) == 0 && BeValue(s[z..]) == BeValue(s)
  {
    LeadingZerosVanish(0x100, s[..z], z);
    assert s[..z][z..] == [];
    LeadingZerosVanish(0x100, s, z);
  }

  /** After i bytes, z of them zero: the value fits, and leaves the front digit free unless i is the last. */
  lemma PrefixFits(bin: seq<uint8>, z: nat, i: nat)
    requires z <= i <= |bin| && forall k :: 0 <= k < z ==> bin[k] == 0
    ensures var size := (|bin| - z) * 138 / 100 + 1;
      && BeValue(bin[..i]) < Pow(BASE58, size)
      && (i < |bin| ==> BeValue(bin[..i]) < Pow(BASE58, size - 1))
  {
    hide BeValue, Pow;
    LeadingZerosOnly(bin[..i], z);
    BeBound(bin[..i][z..]);
    BufferSuffices(|bin| - z);
    PowMonotone(0x100, i - z, |bin| - z);
    if i < |bin| {
      PowMonotone(0x100, i - z, |bin| - z - 1);
    }
  }

  lemma NextByteValue(bin: seq<uint8>, i: nat)
    requires i < |bin|
    ensures BeValue(bin[..i + 1]) == BeValue(bin[..i]) * 256 + bin[i]
  {
    BeSnoc(bin[..i], bin[i]);
    assert bin[..i + 1] == bin[..i] + [bin[i]];
  }

  /** The digits of bin without its z leading zeros. */
  method DigitBuffer(bin: seq<uint8>, z: nat) returns (buf: array<uint8>)
    requires z == LeadingZeros(bin)
    ensures fresh(buf) && buf.Length == (|bin| - z) * 138 / 100 + 1
    ensures Digits(BASE58, buf[..]) && Number(BASE58, buf[..]) == BeValue(bin)
  {
    hide Number, BeValue, Pow;
    var size := (|bin| - z) * 138 / 100 + 1;
    buf := new uint8[size](i => 0);
    LeadingZerosOnly(bin, z);
    AllZero(buf[..]);
    var high: nat := size - 1;
    for i := z to |bin|
      invariant high < size && Digits(BASE58, buf[..]) && Number(BASE58, buf[..]) == BeValue(bin[..i])
      invariant i < |bin| ==> forall k :: 0 <= k <= high ==> buf[k] == 0
    {
      NextByteValue(bin, i);
      PrefixFits(bin, z, i + 1);
      high := AppendByte(buf, bin[i], high);
      if i + 1 < |bin| {
        FrontDigit(BASE58, buf[..], 1);
      }
    }
    assert bin[..|bin|] == bin;
  }

  lemma AllZero(s: seq<int>)
    requires forall k :: 0 <= k < |s| ==> s[k] == 0
    ensures Number(BASE58, s) == 0
  {
    LeadingZerosVanish(BASE58, s, |s|);
    assert s[|s|..] == [];
  }

  /** zcount letters for zero, the digits from index start on, and the terminator. */
  method WriteLetters(b58: array<uint8>, zcount: nat, buf: array<uint8>, start: nat)
    requires Digits(BASE58, buf[..]) && start <= buf.Length && zcount + buf.Length - start < b58.Length
    requires b58 != buf
    modifies b58
    ensures forall k :: 0 <= k < zcount ==> b58[k] == Letter(0)
    ensures forall k :: zcount <= k < zcount + buf.Length - start ==> b58[k] == Letter(buf[start + k - zcount])
    ensures b58[zcount + buf.Length - start] == 0
  {
    forall k | 0 <= k < zcount {
      b58[k] := Letter(0);
    }
    var i, j := zcount, start;
    while j < buf.Length
      invariant start <= j <= buf.Length && i == zcount + j - start
      invariant forall k :: 0 <= k < zcount ==> b58[k] == Letter(0)
      invariant forall k :: zcount <= k < i ==> b58[k] == Letter(buf[start + k - zcount])
    {
      b58[i] := Letter(buf[j]);
      i, j := i + 1, j + 1;
    }
    b58[i] := 0;
  }

  /** b58enc: the string and its terminator, if they fit, and the size needed in either case. */
  method Encode(b58: array<uint8>, capacity: nat, bin: seq<uint8>) returns (ok: bool, needed: nat)
    requires capacity <= b58.Length
    modifies b58
    ensures needed == |Encoded(bin)| + 1 && (ok <==> needed <= capacity)
    ensures ok ==> b58[..needed] == Encoded(bin) + [0]
    ensures !ok ==> b58[..] == old(b58[..])
  {
    hide Number, BeValue, Pow, Encoded;
    var zcount := 0;
    while zcount < |bin| && bin[zcount] == 0
      invariant zcount <= |bin| && forall k :: 0 <= k < zcount ==> bin[k] == 0
    {
      zcount := zcount + 1;
    }
    LeadingZerosIs(bin, zcount);
    var buf := DigitBuffer(bin, zcount);
    var size, j := buf.Length, 0;
    while j < size && buf[j] == 0
      invariant j <= size && forall k :: 0 <= k < j ==> buf[k] == 0
    {
      j := j + 1;
    }
    EncodedAs(bin, buf[..], j);
    needed := zcount + size - j + 1;
    if capacity <= zcount + size - j {
      return false, needed;
    }
    WriteLetters(b58, zcount, buf, j);
    assert b58[..needed - 1] == Encoded(bin);
    ok := true;
  }

  lemma EncodedAs(bin: seq<uint8>, buf: seq<uint8>, j: nat)
    requires Digits(BASE58, buf) && Number(BASE58, buf) == BeValue(bin)
    requires j <= |buf| && (forall k :: 0 <= k < j ==> buf[k] == 0) && (j < |buf| ==> buf[j] != 0)
    ensures var z := LeadingZeros(bin);
      && |Encoded(bin)| == z + |buf| - j
      && (forall k :: 0 <= k < z ==> Encoded(bin)[k] == Letter(0))
      && (forall k :: z <= k < z + |buf| - j ==> Encoded(bin)[k] == Letter(buf[j + k - z]))
  {
    hide Number, BeValue, Shortest;
    LeadingZerosVanish(BASE58, buf, j);
    ShortestIs(BASE58, buf[j..]);
  }

  // ---------------------------------------------------------------- decoding

  /** out = out * 58 + digit; c is what does not fit. */
  method MultiplyAdd(outi: array<uint32>, digit: int) returns (c: int)
    requires 0 <= digit < BASE58
    modifies outi
    ensures 0 <= c < BASE58
    ensures Number(TWO32, outi[..]) + c * Pow(TWO32, outi.Length) == 58 * old(Number(TWO32, outi[..])) + digit
  {
    hide Number, Pow, Tail;
    c := digit;
    ghost var b := outi[..];
    ScaleNothing(TWO32, 58, b, digit);
    for j := outi.Length downto 0
      invariant 0 <= c < BASE58
      invariant forall k :: 0 <= k < j ==> outi[k] == b[k]
      invariant Tail(TWO32, outi[..], j) + c * Pow(TWO32, outi.Length - j) == 58 * Tail(TWO32, b, j) + digit
    {
      ghost var s, c0 := outi[..], c;
      var t: uint64 := outi[j] as int * 58 + c;
      c := t / TWO32;
      outi[j] := t % TWO32;
      ScaleDigit(TWO32, 58, b, s, outi[..], j, digit, c0, c);
    }
    ScaleEnd(TWO32, 58, b, outi[..], digit, c);
  }

  /** 256^n for n = 4 * words, or bytesleft more than 4 * (words - 1). */
  lemma BufferSize(n: nat, words: nat, bytesleft: nat)
    requires n > 0 && words == (n + 3) / 4 && bytesleft == n % 4
    ensures Pow(0x100, n) <= Pow(TWO32, words)
    ensures bytesleft == 0 ==> Pow(0x100, n) == Pow(TWO32, words)
    ensures bytesleft != 0 ==> Pow(0x100, n) == Pow(0x100, bytesleft) * Pow(TWO32, words - 1)
  {
    hide Pow;
    WordIsPow();
    PowMul(0x100, 4, words);
    PowMonotone(0x100, n, 4 * words);
    if bytesleft != 0 {
      PowMul(0x100, 4, words - 1);
      PowAdd(0x100, bytesleft, 4 * (words - 1));
    }
  }

  /** The overflow tests: the carry and the unused bytes of the first word are zero exactly when the value fits. */
  lemma FitsExactly(out: seq<uint32>, c: int, v: int, n: nat)
    requires n > 0 && |out| == (n + 3) / 4 && c >= 0 && Number(TWO32, out) + c * Pow(TWO32, |out|) == v
    ensures Pow(0x100, n % 4) > 0
    ensures v < Pow(0x100, n) <==> c == 0 && (n % 4 == 0 || out[0] < Pow(0x100, n % 4))
  {
    hide Pow, Number;
    BufferSize(n, |out|, n % 4);
    PowPositive(0x100, n % 4);
    PowPositive(TWO32, |out|);
    Bound(TWO32, out);
    if c == 0 {
      FrontDigit(TWO32, out, Pow(0x100, n % 4));
    } else {
      MulMonotone(1, c, Pow(TWO32, |out|));
    }
  }

  lemma NextValue(s: seq<uint8>, i: nat)
    requires i < |s|
    ensures Number(BASE58, Values(s[..i + 1])) == 58 * Number(BASE58, Values(s[..i])) + DigitOf(s[i])
    ensures Digits(BASE58, Values(s[..i + 1])) <==> Digits(BASE58, Values(s[..i])) && DigitOf(s[i]) >= 0
  {
    Snoc(BASE58, Values(s[..i]), DigitOf(s[i]));
    var next := Values(s[..i + 1]);
    assert next == Values(s[..i]) + [DigitOf(s[i])];
    assert next[i] == DigitOf(s[i]) && forall k :: 0 <= k < i ==> next[k] == Values(s[..i])[k];
  }

  /** Once a prefix is invalid or too large, so is the whole string. */
  lemma PrefixFails(s: seq<uint8>, i: nat, n: nat)
    requires i <= |s|
    requires Digits(BASE58, Values(s[..i])) ==> Number(BASE58, Values(s[..i])) >= Pow(0x100, n)
    ensures Decoded(s, n).None?
  {
    hide Pow, Number;
    assert Values(s[..i]) == Values(s)[..i];
    if Digits(BASE58, Values(s)) {
      assert forall k :: 0 <= k < i ==> Values(s)[..i][k] == Values(s)[k];
      PrefixLe(BASE58, Values(s), i);
    }
  }

  /** The count low bytes of a word, most significant first. */
  method StoreBytes(bin: array<uint8>, pos: nat, word: uint32, count: nat)
    requires count <= 4 && pos + count <= bin.Length
    modifies bin
    ensures bin[..pos + count] == old(bin[..pos]) + WordBytes(word)[4 - count..]
  {
    hide WordBytes;
    var p := pos;
    for i := count downto 0
      invariant p == pos + count - i
      invariant bin[..p] == old(bin[..pos]) + WordBytes(word)[4 - count..4 - i]
    {
      bin[p] := WordBytes(word)[3 - i];
      p := p + 1;
    }
    assert WordBytes(word)[4 - count..4] == WordBytes(word)[4 - count..];
  }

  /** Appending the low bytes of a word that has no others. */
  lemma StoredValue(bytes: seq<uint8>, word: uint32, count: nat)
    requires count <= 4 && word < Pow(0x100, count)
    ensures BeValue(bytes + WordBytes(word)[4 - count..]) == BeValue(bytes) * Pow(0x100, count) + word
  {
    hide BeValue, Pow, WordBytes;
    var w := WordBytes(word);
    WordValue(w);
    WordOfBytes(word);
    BeSplit(w, 4 - count);
    PowPositive(0x100, count);
    HighPartZero(BeValue(w[..4 - count]), Pow(0x100, count), BeValue(w[4 - count..]));
    BeSplit(bytes + w[4 - count..], |bytes|);
    assert (bytes + w[4 - count..])[..|bytes|] == bytes;
    assert (bytes + w[4 - count..])[|bytes|..] == w[4 - count..];
  }

  lemma HighPartZero(high: int, p: int, low: int)
    requires high >= 0 && low >= 0 && p > 0 && high * p + low < p
    ensures high * p + low == low
  {
    if high > 0 {
      MulMonotone(1, high, p);
    }
  }

  /** The words as bytes, the first one with as many as are left over. */
  method StoreWords(bin: array<uint8>, outi: array<uint32>)
    requires bin.Length > 0 && outi.Length == (bin.Length + 3) / 4
    requires bin.Length % 4 != 0 ==> outi[0] < Pow(0x100, bin.Length % 4)
    modifies bin
    ensures BeValue(bin[..]) == Number(TWO32, outi[..])
  {
    hide BeValue, Number, Pow, WordBytes;
    var n, bytesleft, j, pos := bin.Length, bin.Length % 4, 0, 0;
    NoWords(outi[..]);
    if bytesleft != 0 {
      StoreBytes(bin, 0, outi[0], bytesleft);
      StoredValue([], outi[0], bytesleft);
      FirstWord(outi[..]);
      assert bin[..0] == [] && [] + WordBytes(outi[0])[4 - bytesleft..] == WordBytes(outi[0])[4 - bytesleft..];
      BeEmpty();
      j, pos := 1, bytesleft;
    }
    while j < outi.Length
      invariant j <= outi.Length && pos == n - 4 * (outi.Length - j)
      invariant BeValue(bin[..pos]) == Number(TWO32, outi[..j])
    {
      ghost var low := bin[..pos];
      StoreBytes(bin, pos, outi[j], 4);
      WordIsPow();
      StoredValue(low, outi[j], 4);
      Snoc(TWO32, outi[..j], outi[j]);
      assert outi[..j + 1] == outi[..j] + [outi[j]];
      j, pos := j + 1, pos + 4;
    }
    assert bin[..n] == bin[..] && outi[..j] == outi[..];
  }

  lemma NoWords(s: seq<uint32>)
    ensures Number(TWO32, s[..0]) == 0 && BeValue([]) == 0
  {}

  lemma FirstWord(s: seq<uint32>)
    requires s != []
    ensures Number(TWO32, s[..1]) == s[0]
  {
    Snoc(TWO32, [], s[0]);
    assert s[..1] == [] + [s[0]];
  }

  /** The digits from index from on, added to a zero number, as long as n bytes suffice. */
  method Accumulate(outi: array<uint32>, b58: seq<uint8>, from: nat, n: nat) returns (ok: bool)
    requires n > 0 && outi.Length == (n + 3) / 4 && forall k :: 0 <= k < outi.Length ==> outi[k] == 0
    requires from <= |b58| && forall k :: 0 <= k < from ==> b58[k] == Letter(0)
    modifies outi
    ensures ok ==>
      && Digits(BASE58, Values(b58))
      && Number(TWO32, outi[..]) == Number(BASE58, Values(b58)) < Pow(0x100, n)
      && (n % 4 != 0 ==> outi[0] < Pow(0x100, n % 4))
    ensures !ok ==> Decoded(b58, n).None?
  {
    hide Number, Pow, Decoded, Digits, Values;
    var bytesleft := n % 4;
    PowPositive(0x100, n);
    PowPositive(0x100, bytesleft);
    ZeroNumbers(b58, from, outi[..]);
    for i := from to |b58|
      invariant Digits(BASE58, Values(b58[..i]))
      invariant Number(TWO32, outi[..]) == Number(BASE58, Values(b58[..i])) < Pow(0x100, n)
      invariant bytesleft != 0 ==> outi[0] < Pow(0x100, bytesleft)
    {
      NextValue(b58, i);
      if b58[i] >= 0x80 || DigitOf(b58[i]) == -1 {
        PrefixFails(b58, i + 1, n);
        return false;
      }
      var c := MultiplyAdd(outi, DigitOf(b58[i]));
      FitsExactly(outi[..], c, Number(BASE58, Values(b58[..i + 1])), n);
      QuotientZero(outi[0], Pow(0x100, bytesleft));
      if c != 0 || (bytesleft != 0 && outi[0] / Pow(0x100, bytesleft) != 0) {
        PrefixFails(b58, i + 1, n);
        return false;
      }
    }
    assert b58[..|b58|] == b58;
    ok := true;
  }

  lemma QuotientZero(a: nat, m: int)
    requires m > 0
    ensures a / m == 0 <==> a < m
  {
    if a < m {
      DivUnique(a, m, 0, a);
    }
  }

  lemma ZeroNumbers(s: seq<uint8>, k: nat, out: seq<uint32>)
    requires k <= |s| && (forall i :: 0 <= i < k ==> s[i] == Letter(0)) && forall i :: 0 <= i < |out| ==> out[i] == 0
    ensures Digits(BASE58, Values(s[..k])) && Number(TWO32, out) == Number(BASE58, Values(s[..k])) == 0
  {
    LeadingZerosVanish(BASE58, Values(s[..k]), k);
    LeadingZerosVanish(TWO32, out, |out|);
    assert out[|out|..] == [] && Values(s[..k])[k..] == [];
  }

  /** b58tobin: the bytes at the end of the buffer, and how many. */
  method Decode(bin: array<uint8>, b58: seq<uint8>) returns (ok: bool, sz: nat)
    modifies bin
    ensures ok <==> Decoded(b58, bin.Length).Some?
    ensures ok ==> sz <= bin.Length && bin[bin.Length - sz..] == Decoded(b58, bin.Length).value
    ensures !ok ==> sz == bin.Length
  {
    hide Number, BeValue, Pow, Decoded;
    var n := bin.Length;
    ok, sz := false, n;
    if n == 0 {
      EmptyBuffer(b58);
      return;
    }
    var outi := new uint32[(n + 3) / 4](i => 0);
    var zerocount := 0;
    while zerocount < |b58| && b58[zerocount] == Letter(0)
      invariant zerocount <= |b58| && forall k :: 0 <= k < zerocount ==> b58[k] == Letter(0)
    {
      zerocount := zerocount + 1;
    }
    LeadingOnes(b58, zerocount);
    var fits := Accumulate(outi, b58, zerocount, n);
    if !fits {
      return;
    }
    StoreWords(bin, outi);
    var i := 0;
    while i < n && bin[i] == 0
      invariant i <= n && forall k :: 0 <= k < i ==> bin[k] == 0
    {
      i := i + 1;
    }
    DecodedAs(b58, bin[..], zerocount, i);
    if zerocount > i {
      return;
    }
    return true, n - i + zerocount;
  }

  lemma EmptyBuffer(s: seq<uint8>)
    ensures Decoded(s, 0).None?
  {}

  lemma LeadingOnes(s: seq<uint8>, k: nat)
    requires k <= |s| && (forall i :: 0 <= i < k ==> s[i] == Letter(0)) && (k < |s| ==> s[k] != Letter(0))
    ensures LeadingZeros(Values(s)) == k
  {
    LeadingZerosIs(Values(s), k);
  }

  lemma DecodedAs(s: seq<uint8>, bytes: seq<uint8>, k: nat, i: nat)
    requires bytes != [] && Digits(BASE58, Values(s)) && Number(BASE58, Values(s)) == BeValue(bytes)
    requires k == LeadingZeros(Values(s))
    requires i <= |bytes| && (forall j :: 0 <= j < i ==> bytes[j] == 0) && (i < |bytes| ==> bytes[i] != 0)
    ensures Decoded(s, |bytes|) == if k > i then None else Some(bytes[i - k..])
  {
    hide Number, BeValue, Pow, BeBytes;
    BeBound(bytes);
    BeBytesValue(BeValue(bytes), |bytes|);
    BeUnique(bytes, BeBytes(BeValue(bytes), |bytes|));
    LeadingZerosIs(bytes, i);
  }

  // ------------------------------------------------------ what the characters mean

  /** The digits from 1, the capitals without I and O, and the small letters without l. */
  function Character(d: int): char
    requires 0 <= d < 58
  {
    if d < 9 then "123456789"[d]
    else if d < 33 then "ABCDEFGHJKLMNPQRSTUVWXYZ"[d - 9]
    else "abcdefghijkmnopqrstuvwxyz"[d - 33]
  }

  predicate Shows(c: uint8, d: int) {
    0 <= d < 58 && c as char == Character(d)
  }

  lemma LetterLaw(d: int)
    requires 0 <= d < 58
    ensures Letter(d) as char == Character(d)
  {}

  /** The letter of a digit is this character, and this character alone is read as the digit. */
  lemma AlphabetLaw(c: uint8, d: int)
    requires 0 <= d < 58
    ensures c == Letter(d) <==> Shows(c, d)
    ensures DigitOf(c) == d <==> Shows(c, d)
  {
    hide Letter, DigitOf, Character;
    LetterLaw(d);
    AlphabetInverse(d, c);
    AlphabetInverse(d, Letter(d));
  }

  predicate BeginsWithZeros(s: seq<int>, k: nat) {
    k <= |s| && forall i :: 0 <= i < k ==> s[i] == 0
  }

  lemma ZerosAre(s: seq<int>, k: nat)
    ensures BeginsWithZeros(s, k) <==> k <= LeadingZeros(s)
  {}

  /** An encoding shows digits with the value and the leading zeros of the bytes. */
  lemma EncodedMeaning(bin: seq<uint8>)
    ensures exists digits: seq<int> ::
      && |digits| == |Encoded(bin)| && (forall i :: 0 <= i < |digits| ==> Shows(Encoded(bin)[i], digits[i]))
      && Number(58, digits) == BeValue(bin)
      && forall k: nat :: BeginsWithZeros(digits, k) <==> BeginsWithZeros(bin, k)
  {
    hide Encoded, Shows, LeadingZeros, BeginsWithZeros, DigitOf, Character;
    EncodedDigits(bin);
    var text := Encoded(bin);
    var digits := Values(text);
    forall i | 0 <= i < |digits|
      ensures Shows(text[i], digits[i])
    {
      AlphabetLaw(text[i], digits[i]);
    }
    forall k: nat
      ensures BeginsWithZeros(digits, k) <==> BeginsWithZeros(bin, k)
    {
      ZerosAre(digits, k);
      ZerosAre(bin, k);
    }
  }

  /** The bytes 0 and 97 are encoded as "12g". */
  lemma EncodedExample()
    ensures Encoded([0, 97]) == [49, 50, 103]
  {
    var bin: seq<uint8> := [0, 97];
    assert BeValue(bin) == 97 by {
      BeSnoc([0], 97);
      BeSnoc([], 0);
      assert [] + [0] == [0] && [0] + [97] == bin;
    }
    LeadingZerosIs(bin, 1);
    assert Shortest(58, 97) == Shortest(58, 1) + [39];
    assert Shortest(58, 1) == Shortest(58, 0) + [1];
    assert Shortest(58, 97) == [1, 39];
    assert ZeroDigits(1) + [1, 39] == [0, 1, 39];
    assert Letters([0, 1, 39]) == [Letter(0), Letter(1), Letter(39)];
  }
}
