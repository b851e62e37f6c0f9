/** The ABI encoding of static arrays of byte strings, and its decoding from hexadecimal text. */
module Abi {
  import opened Hex
  import opened ModArith
  import opened Radix
  import opened ByteOrder
  import opened Wrappers

  const WORD: nat := 32
  const WORD_TEXT: nat := 64
  /** The largest size whose encoding has a length that an int32_t can hold. */
  const MAX_SIZE: nat := 0x7fff_ffa0
  const TWO64: int := 0x1_0000_0000_0000_0000
  /** Lengths from here on wrap around when they are doubled and a word is added. */
  const LENGTH_LIMIT: nat := 0x7fff_ffff_ffff_ffe0

  // ------------------------------------------------------------- encoding

  function WordOf(v: nat): (w: seq<uint8>)
    ensures |w| == WORD
  {
    BeBytes(v, WORD)
  }

  /** The number of words for size bytes. */
  function Groups(size: nat): nat {
    (size + 31) / 32
  }

  /** Bytes from the left, with zeros up to the end of the last word. */
  function PaddedBytes(b: seq<uint8>): (p: seq<uint8>)
    ensures |p| == WORD * Groups(|b|) && b <= p
  {
    b + seq(WORD * Groups(|b|) - |b|, i => 0)
  }

  /** The length word, then the bytes. */
  function Element(b: seq<uint8>): seq<uint8> {
    WordOf(|b|) + PaddedBytes(b)
  }

  function Tails(list: seq<seq<uint8>>): seq<uint8> {
    if list == [] then [] else Tails(list[..|list| - 1]) + Element(list[|list| - 1])
  }

  /** Where the encoding of element i begins. */
  function Offset(list: seq<seq<uint8>>, i: nat): nat
    requires i <= |list|
  {
    WORD * |list| + |Tails(list[..i])|
  }

  function Heads(list: seq<seq<uint8>>, i: nat): seq<uint8>
    requires i <= |list|
  {
    if i == 0 then [] else Heads(list, i - 1) + WordOf(Offset(list, i - 1))
  }

  function Encoded(list: seq<seq<uint8>>): seq<uint8> {
    Heads(list, |list|) + Tails(list)
  }

  lemma {:induction false} HeadsAt(list: seq<seq<uint8>>, n: nat, i: nat)
    requires i < n <= |list|
    ensures |Heads(list, n)| == WORD * n && |Heads(list, 0)| == 0
    ensures Heads(list, n)[WORD * i..WORD * (i + 1)] == WordOf(Offset(list, i))
  {
    hide WordOf;
    if n > 1 {
      HeadsAt(list, n - 1, if i < n - 1 then i else 0);
    }
  }

  lemma {:induction false} TailsConcat(a: seq<seq<uint8>>, b: seq<seq<uint8>>)
    ensures Tails(a + b) == Tails(a) + Tails(b)
  {
    hide Element;
    if b == [] {
      assert a + b == a;
    } else {
      var n, ab := |b| - 1, a + b;
      TailsConcat(a, b[..n]);
      assert ab[..|ab| - 1] == a + b[..n] && ab[|ab| - 1] == b[n];
      assert Tails(ab) == Tails(a + b[..n]) + Element(b[n]);
      assert Tails(b) == Tails(b[..n]) + Element(b[n]);
    }
  }

  lemma TailsOne(b: seq<uint8>)
    ensures Tails([b]) == Element(b)
  {
    assert [b][..0] == [];
  }

  /** Each head is the position of its element's length word. */
  lemma HeadsPointToElements(list: seq<seq<uint8>>, i: nat)
    requires i < |list|
    ensures var code := Encoded(list);
      && WORD * (i + 1) <= |code| && code[WORD * i..WORD * (i + 1)] == WordOf(Offset(list, i))
      && Offset(list, i) + |Element(list[i])| <= |code|
      && code[Offset(list, i)..Offset(list, i) + |Element(list[i])|] == Element(list[i])
  {
    hide WordOf, Element, Heads, Tails;
    HeadsAt(list, |list|, i);
    var before, b, behind := list[..i], list[i], list[i + 1..];
    assert list == before + ([b] + behind);
    TailsConcat(before, [b] + behind);
    TailsConcat([b], behind);
    TailsOne(b);
    var heads := Heads(list, |list|);
    SliceOfSum(heads, Tails(list), WORD * i, WORD * (i + 1));
    assert Encoded(list) == (heads + Tails(before)) + (Element(b) + Tails(behind));
    Middle(heads + Tails(before), Element(b), Tails(behind));
  }

  lemma SliceOfSum(a: seq<uint8>, b: seq<uint8>, i: nat, j: nat)
    requires i <= j <= |a|
    ensures (a + b)[i..j] == a[i..j]
  {}

  lemma Middle(a: seq<uint8>, b: seq<uint8>, c: seq<uint8>)
    ensures (a + (b + c))[|a|..|a| + |b|] == b
  {}

  // ----------------------------------------------------------- hexadecimal text

  function HexText(b: seq<uint8>): (s: seq<uint8>)
    ensures |s| == 2 * |b|
  {
    seq(2 * |b|, k requires 0 <= k < 2 * |b| => HexDigit(if k % 2 == 0 then b[k / 2] / 16 else b[k / 2] % 16))
  }

  lemma HexTextConcat(a: seq<uint8>, b: seq<uint8>)
    ensures HexText(a + b) == HexText(a) + HexText(b)
  {
    var s, t := HexText(a + b), HexText(a) + HexText(b);
    forall k | 0 <= k < |s|
      ensures s[k] == t[k]
    {
      if k >= 2 * |a| {
        assert (k - 2 * |a|) / 2 == k / 2 - |a| && (k - 2 * |a|) % 2 == k % 2;
      }
    }
  }

  ghost predicate AllHex(s: seq<uint8>) {
    forall i :: 0 <= i < |s| ==> HexValue(s[i]) >= 0
  }

  /** Two digits a byte; an odd last digit is a byte of its own. */
  function Unhexed(s: seq<uint8>): (b: seq<uint8>)
    requires AllHex(s)
  {
    if |s| == 0 then []
    else if |s| == 1 then [HexValue(s[0])]
    else [HexValue(s[0]) * 16 + HexValue(s[1])] + Unhexed(s[2..])
  }

  lemma {:induction false} UnhexHex(b: seq<uint8>)
    ensures AllHex(HexText(b)) && Unhexed(HexText(b)) == b
  {
    var s := HexText(b);
    forall k | 0 <= k < |s|
      ensures HexValue(s[k]) >= 0
    {
      HexDigitValue(if k % 2 == 0 then b[k / 2] / 16 else b[k / 2] % 16);
    }
    if b != [] {
      UnhexHex(b[1..]);
      HexTextConcat([b[0]], b[1..]);
      assert [b[0]] + b[1..] == b;
      assert s[2..] == HexText(b[1..]);
      HexDigitValue(b[0] / 16);
      HexDigitValue(b[0] % 16);
      assert s[0] == HexDigit(b[0] / 16) && s[1] == HexDigit(b[0] % 16);
    }
  }

  predicate HasPrefix(s: seq<uint8>) {
    |s| >= 2 && s[0] == 48 && s[1] == 120
  }

  /** A length of zero stands for the whole string, and a prefix is skipped. */
  function DigitsOf(str: seq<uint8>, strLength: nat): seq<uint8>
    requires strLength <= |str|
  {
    var s := if strLength == 0 then str else str[..strLength];
    if HasPrefix(s) then s[2..] else s
  }

  /** What str2hex returns. */
  ghost function Str2Hex(str: seq<uint8>, size: nat, strLength: nat): Option<seq<uint8>>
    requires strLength <= |str|
  {
    var digits := DigitsOf(str, strLength);
    if size < |digits| / 2 || !AllHex(digits) then None else Some(Unhexed(digits))
  }

  lemma {:induction false} UnhexedLength(s: seq<uint8>)
    requires AllHex(s)
    ensures |Unhexed(s)| == (|s| + 1) / 2
  {
    if |s| > 1 {
      UnhexedLength(s[2..]);
    }
  }

  /** The bytes that the conversion loop stores before it meets a character that is no digit. */
  function Converted(s: seq<uint8>): (b: seq<uint8>) {
    if |s| == 0 || HexValue(s[0]) < 0 then []
    else if |s| == 1 then [HexValue(s[0])]
    else if HexValue(s[1]) < 0 then []
    else [HexValue(s[0]) * 16 + HexValue(s[1])] + Converted(s[2..])
  }

  /** What str2hex stores, whether it succeeds or not. */
  function Stored(str: seq<uint8>, size: nat, strLength: nat): seq<uint8>
    requires strLength <= |str|
  {
    var digits := DigitsOf(str, strLength);
    if size < |digits| / 2 then [] else Converted(digits)
  }

  lemma {:induction false} ConvertedLength(s: seq<uint8>)
    ensures |Converted(s)| <= (|s| + 1) / 2
    ensures AllHex(s) ==> Converted(s) == Unhexed(s)
    ensures |s| % 2 == 1 && |Converted(s)| == (|s| + 1) / 2 ==> AllHex(s)
  {
    NoDigits();
    if s != [] {
      DigitsStep(s);
      if |s| > 1 {
        ConvertedLength(s[2..]);
      }
    }
  }

  /**
   * The size check rounds down: str2hex stores one byte too many exactly for an odd number of digits
   * that is one more than the buffer was checked for, and nothing but digits.
   */
  lemma StoresInside(str: seq<uint8>, size: nat, strLength: nat)
    requires strLength <= |str|
    ensures var digits := DigitsOf(str, strLength);
      && |Stored(str, size, strLength)| <= size + 1
      && (|Stored(str, size, strLength)| <= size <==> !(|digits| == 2 * size + 1 && AllHex(digits)))
      && (Str2Hex(str, size, strLength).Some? ==>
        && Stored(str, size, strLength) == Str2Hex(str, size, strLength).value
        && (|Stored(str, size, strLength)| <= size <==> size >= (|digits| + 1) / 2))
  {
    hide AllHex, Converted, Unhexed;
    var digits := DigitsOf(str, strLength);
    ConvertedLength(digits);
    if AllHex(digits) {
      UnhexedLength(digits);
    }
  }

  /** One digit passes the check of a buffer that is empty, and a byte is stored behind it. */
  lemma OneDigitOverruns()
    ensures Str2Hex([48], 0, 0) == Some([0]) && |Stored([48], 0, 0)| == 1 > 0
  {
    assert AllHex([48]) && HexValue(48) == 0;
  }

  lemma Str2HexOfHex(b: seq<uint8>, rest: seq<uint8>)
    requires b != []
    ensures Str2Hex(HexText(b) + rest, |b|, 2 * |b|) == Some(b)
  {
    var s := HexText(b) + rest;
    assert s[..2 * |b|] == HexText(b);
    UnhexHex(b);
    NoPrefix(b);
  }

  // ------------------------------------------------------------------ decoding

  /** Memory with the bytes b stored from index at on. */
  function Overwritten(memory: seq<uint8>, at: nat, b: seq<uint8>): (r: seq<uint8>)
    requires at + |b| <= |memory|
    ensures |r| == |memory|
  {
    memory[..at] + b + memory[at + |b|..]
  }

  /** Byte by byte. */
  lemma OverwrittenAt(memory: seq<uint8>, now: seq<uint8>, at: nat, b: seq<uint8>)
    requires |now| == |memory| && at + |b| <= |memory|
    requires forall k :: 0 <= k < |b| ==> now[at + k] == b[k]
    requires forall k :: 0 <= k < at || at + |b| <= k < |memory| ==> now[k] == memory[k]
    ensures now == Overwritten(memory, at, b)
  {
    assert now[at..at + |b|] == b;
    assert now == now[..at] + now[at..at + |b|] + now[at + |b|..];
  }

  /** The number in the last eight bytes of a word; zero when they are not hexadecimal. */
  ghost function DecodeUint64(s: seq<uint8>): (v: nat)
    requires |s| >= WORD_TEXT
    ensures v < TWO64
  {
    var b := Str2Hex(s[48..], 8, 16);
    if b.None? then 0 else
      EightBytes();
      BeBound(Filled(b.value, Zeros(8)));
      BeValue(Filled(b.value, Zeros(8)))
  }

  function Wrapped(v: nat): (w: nat)
    ensures w <= v
  {
    ModLe(v, TWO64);
    v % TWO64
  }

  /** A buffer that held base, and into which b was stored. */
  function Filled(b: seq<uint8>, base: seq<uint8>): (f: seq<uint8>)
    ensures |f| == |base|
  {
    if |b| <= |base| then b + base[|b|..] else b[..|base|]
  }

  /**
   * What a decoder ends with: the list, an error with the elements that were already appended to the
   * result, or one of three ways to leave memory: a byte stored behind the buffer of an element, a
   * buffer for a length that wrapped around, a word read behind the end of the text.
   */
  datatype Decoded =
    | Elements(list: seq<seq<uint8>>)
    | Failed(before: seq<seq<uint8>>)
    | StoredOutside
    | Oversized
    | ReadOutside

  function Behind(list: seq<seq<uint8>>, d: Decoded): Decoded {
    match d
    case Elements(more) => Elements(list + more)
    case Failed(more) => Failed(list + more)
    case _ => d
  }

  /** What the buffer of an element holds before it is written: anything, by elements left and position. */
  type Memory = (nat, nat) -> uint8

  function Base(memory: Memory, n: nat, size: nat): (b: seq<uint8>)
    ensures |b| == size
  {
    seq(size, k requires 0 <= k < size => memory(n, k))
  }

  function Drop(s: seq<uint8>, n: nat): seq<uint8> {
    if n <= |s| then s[n..] else []
  }

  /** A length is read before the text is measured: sixteen digits from its 48th character on. */
  function ShortWord(s: seq<uint8>): Decoded {
    if |s| < 48 then ReadOutside else Failed([])
  }

  /** n elements, one behind the other; the heads are not looked at. */
  ghost function DecodeElements(s: seq<uint8>, n: nat, memory: Memory): Decoded
    decreases n
  {
    if n == 0 then Elements([])
    else if |s| < WORD_TEXT then ShortWord(s)
    else
      var size := DecodeUint64(s);
      if |s| < Wrapped(2 * size + WORD_TEXT) then Failed([])
      else if size >= LENGTH_LIMIT then Oversized
      else
        var rest := s[WORD_TEXT..];
        var b := Str2Hex(rest, size, 2 * size);
        if SingleDigit(rest, size) then StoredOutside
        else if b.None? then Failed([])
        else
          Behind([Filled(b.value, Base(memory, n, size))],
                 DecodeElements(Drop(rest, WORD_TEXT * Groups(size)), n - 1, memory))
  }

  /** An empty element with one digit, and nothing else, behind its length word. */
  ghost predicate SingleDigit(rest: seq<uint8>, size: nat) {
    size == 0 && |DigitsOf(rest, 0)| == 1 && AllHex(DigitsOf(rest, 0))
  }

  /** Behind the test of the length, only such an element is stored outside its buffer. */
  lemma ElementInside(s: seq<uint8>)
    requires |s| >= WORD_TEXT && |s| >= Wrapped(2 * DecodeUint64(s) + WORD_TEXT)
    ensures var size, rest := DecodeUint64(s), s[WORD_TEXT..];
      size >= LENGTH_LIMIT
      || (2 * size <= |rest| && (SingleDigit(rest, size) <==> |Stored(rest, size, 2 * size)| > size))
  {
    hide AllHex, Converted, Unhexed, DecodeUint64;
    var size := DecodeUint64(s);
    if size < LENGTH_LIMIT {
      StoresInside(s[WORD_TEXT..], size, 2 * size);
    }
  }

  /** A text of n characters is compared as if nothing had wrapped around. */
  predicate SameTest(n: nat, product: nat) {
    n < Wrapped(product) <==> n < product
  }

  ghost predicate Exact(product: nat) {
    forall n: nat :: n < TWO64 ==> SameTest(n, product)
  }

  /** The test of a length means what it says, for every text, exactly when the length is below the limit. */
  lemma LengthTest(size: nat)
    requires size < TWO64
    ensures Exact(2 * size + WORD_TEXT) <==> size < LENGTH_LIMIT
  {
    if size >= LENGTH_LIMIT {
      assert !SameTest(Wrapped(2 * size + WORD_TEXT), 2 * size + WORD_TEXT);
    }
  }

  /** The test of the array's offset does so exactly for offsets below 2^63. */
  lemma OffsetTest(offset: nat)
    requires offset < TWO64
    ensures Exact(2 * offset) <==> offset < TWO64 / 2
  {
    if offset >= TWO64 / 2 {
      assert !SameTest(Wrapped(2 * offset), 2 * offset);
    }
  }

  /** Where the array begins in the text. */
  ghost function ArrayStart(s: seq<uint8>, containsOffset: bool): nat
    requires |s| >= WORD_TEXT
  {
    if containsOffset then Wrapped(2 * DecodeUint64(s)) else 0
  }

  /** decodeStaticArrayDynamicBytes. */
  ghost function DecodeArray(s: seq<uint8>, n: nat, containsOffset: bool, memory: Memory): Decoded {
    if |s| < WORD_TEXT || |s| < ArrayStart(s, containsOffset) then Failed([])
    else
      var t := s[ArrayStart(s, containsOffset)..];
      if |t| < Wrapped(n * WORD_TEXT) then Failed([])
      else if |t| < n * WORD_TEXT then ReadOutside
      else DecodeElements(t[n * WORD_TEXT..], n, memory)
  }

  lemma {:induction false} BeBytesTail(v: nat, n: nat, k: nat)
    requires k <= n
    ensures BeBytes(v, n)[n - k..] == BeBytes(v, k)
  {
    if k > 0 {
      BeBytesTail(v / 0x100, n - 1, k - 1);
      var b := BeBytes(v / 0x100, n - 1) + [v % 0x100];
      assert b[n - k..] == b[..n - 1][n - k..] + [v % 0x100];
    }
  }

  lemma EightBytes()
    ensures Pow(0x100, 8) == 0x1_0000_0000_0000_0000
  {}

  /** A word of text gives back the number that was put into it. */
  lemma DecodeWord(v: nat, rest: seq<uint8>)
    requires v < 0x1_0000_0000_0000_0000
    ensures DecodeUint64(HexText(WordOf(v)) + rest) == v
  {
    hide BeValue, BeBytes, HexText, Str2Hex, Pow;
    var w := WordOf(v);
    var low := w[24..];
    BeBytesTail(v, WORD, 8);
    HexTextConcat(w[..24], low);
    assert w == w[..24] + low;
    assert (HexText(w) + rest)[48..] == HexText(low) + rest;
    Str2HexOfHex(low, rest);
    assert Filled(low, Zeros(8)) == low;
    EightBytes();
    BeBytesValue(v, 8);
  }

  /** Lists whose encoding can be decoded: only the last element may be empty. */
  predicate Decodable(list: seq<seq<uint8>>) {
    forall i :: 0 <= i < |list| - 1 ==> list[i] != []
  }

  predicate Small(list: seq<seq<uint8>>) {
    forall i :: 0 <= i < |list| ==> |list[i]| <= MAX_SIZE
  }

  lemma TailsCons(list: seq<seq<uint8>>)
    requires list != []
    ensures Tails(list) == WordOf(|list[0]|) + (PaddedBytes(list[0]) + Tails(list[1..]))
    ensures Tails(list[1..]) == [] <==> |list| == 1
  {
    hide WordOf, PaddedBytes;
    var rest := list[1..];
    TailsConcat([list[0]], rest);
    TailsOne(list[0]);
    assert list == [list[0]] + rest;
    if rest != [] {
      assert Tails(rest) == Tails(rest[..|rest| - 1]) + Element(rest[|rest| - 1]);
    }
  }

  /** How many elements come before the first empty one. */
  function NonEmpty(list: seq<seq<uint8>>): (k: nat)
    ensures k <= |list| && (forall i :: 0 <= i < k ==> list[i] != []) && (k < |list| ==> list[k] == [])
  {
    if list == [] || list[0] == [] then 0 else 1 + NonEmpty(list[1..])
  }

  /** The whole list if it can be decoded, and otherwise the elements before the first empty one. */
  function Expected(list: seq<seq<uint8>>): Decoded {
    if Decodable(list) then Elements(list) else Failed(list[..NonEmpty(list)])
  }

  /** Decoding the tails gives the list back, unless an element before the last is empty. */
  lemma {:induction false} DecodeTails(list: seq<seq<uint8>>, memory: Memory)
    requires Small(list)
    ensures DecodeElements(HexText(Tails(list)), |list|, memory) == Expected(list)
    decreases |list|
  {
    hide WordOf, PaddedBytes, HexText, Str2Hex, DecodeUint64, Tails, SingleDigit, Expected;
    if list != [] {
      var b, more := list[0], list[1..];
      var s := HexText(Tails(list));
      TailsCons(list);
      HexTextConcat(WordOf(|b|), PaddedBytes(b) + Tails(more));
      HexTextConcat(PaddedBytes(b), Tails(more));
      var rest := HexText(PaddedBytes(b)) + HexText(Tails(more));
      DecodeWord(|b|, rest);
      assert s[WORD_TEXT..] == rest;
      ElementText(b, Tails(more));
      assert Drop(rest, WORD_TEXT * Groups(|b|)) == HexText(Tails(more));
      DecodeTails(more, memory);
      ExpectedStep(list);
      assert Filled(b, Base(memory, |list|, |b|)) == b;
    } else {
      ExpectedStep(list);
    }
  }

  lemma ExpectedStep(list: seq<seq<uint8>>)
    ensures Expected(list)
         == if list == [] then Elements([])
            else if list[0] == [] && |list| > 1 then Failed([])
            else Behind([list[0]], Expected(list[1..]))
  {
    if list != [] {
      FirstDecodable(list);
      assert list == [list[0]] + list[1..];
      if list[0] != [] {
        var k := NonEmpty(list[1..]);
        assert list[..1 + k] == [list[0]] + list[1..][..k];
      }
    }
  }

  lemma FirstDecodable(list: seq<seq<uint8>>)
    requires list != []
    ensures Decodable(list) <==> Decodable(list[1..]) && (|list| > 1 ==> list[0] != [])
  {
    var more := list[1..];
    if Decodable(more) && (|list| > 1 ==> list[0] != []) {
      forall i | 0 <= i < |list| - 1
        ensures list[i] != []
      {
        assert i > 0 ==> list[i] == more[i - 1];
      }
    }
    if Decodable(list) {
      forall i | 0 <= i < |more| - 1
        ensures more[i] != []
      {
        assert more[i] == list[i + 1];
      }
    }
  }

  /** The text of an element's bytes; an empty one makes the decoder take everything behind it instead. */
  lemma ElementText(b: seq<uint8>, behind: seq<uint8>)
    ensures var rest := HexText(PaddedBytes(b)) + HexText(behind);
      && 2 * |b| <= |rest| && !SingleDigit(rest, |b|)
      && Str2Hex(rest, |b|, 2 * |b|) == if b != [] || behind == [] then Some(b) else None
  {
    hide HexText, Unhexed;
    var p := PaddedBytes(b);
    var rest := HexText(p) + HexText(behind);
    if b != [] {
      HexTextConcat(b, p[|b|..]);
      assert p == b + p[|b|..];
      assert rest == HexText(b) + (HexText(p[|b|..]) + HexText(behind));
      Str2HexOfHex(b, HexText(p[|b|..]) + HexText(behind));
    } else {
      assert p == [];
      assert rest == HexText(behind);
      UnhexHex(behind);
      NoPrefix(behind);
    }
  }

  lemma NoPrefix(b: seq<uint8>)
    ensures !HasPrefix(HexText(b))
  {}

  lemma EncodedParts(list: seq<seq<uint8>>)
    ensures |Heads(list, |list|)| == WORD * |list|
  {
    if list != [] {
      HeadsAt(list, |list|, 0);
    }
  }

  /** Encoding and decoding: the list comes back exactly when it is not empty and only its last element may be. */
  lemma ArrayRoundTrip(list: seq<seq<uint8>>, memory: Memory)
    requires Small(list)
    ensures DecodeArray(HexText(Encoded(list)), |list|, false, memory)
         == if list != [] && Decodable(list) then Elements(list) else Failed(list[..NonEmpty(list)])
  {
    hide Heads, Tails, HexText, DecodeElements, Decodable;
    var heads, tails := Heads(list, |list|), Tails(list);
    EncodedParts(list);
    HexTextConcat(heads, tails);
    DecodeTails(list, memory);
    var s := HexText(Encoded(list));
    assert s[|list| * WORD_TEXT..] == HexText(tails);
    if list != [] {
      assert |s| >= WORD_TEXT;
    } else {
      NoTails();
    }
  }

  lemma NoTails()
    ensures Tails([]) == []
  {}

  /** The same behind a word that holds the offset of the array, where the empty list comes back as well. */
  lemma OffsetRoundTrip(list: seq<seq<uint8>>, memory: Memory)
    requires Small(list)
    ensures DecodeArray(HexText(WordOf(WORD) + Encoded(list)), |list|, true, memory) == Expected(list)
  {
    hide HexText, DecodeElements, Expected, DecodeUint64, WordOf, Heads, Tails;
    HexTextConcat(WordOf(WORD), Encoded(list));
    DecodeWord(WORD, HexText(Encoded(list)));
    var s, t := HexText(WordOf(WORD) + Encoded(list)), HexText(Encoded(list));
    assert s[WORD_TEXT..] == t;
    EncodedParts(list);
    HexTextConcat(Heads(list, |list|), Tails(list));
    assert t[|list| * WORD_TEXT..] == HexText(Tails(list));
    DecodeTails(list, memory);
  }

  // ------------------------------------------------ texts that leave the format

  /** Text of even length never makes the decoder store outside a buffer. */
  lemma EvenTextInside(s: seq<uint8>, n: nat, containsOffset: bool, memory: Memory)
    requires |s| % 2 == 0
    ensures DecodeArray(s, n, containsOffset, memory) != StoredOutside
  {
    hide DecodeUint64, DecodeElements;
    if |s| >= WORD_TEXT && |s| >= ArrayStart(s, containsOffset) {
      EvenStart(s, containsOffset);
      var t := s[ArrayStart(s, containsOffset)..];
      if |t| >= n * WORD_TEXT {
        EvenElementsInside(t[n * WORD_TEXT..], n, memory);
      }
    }
  }

  lemma EvenStart(s: seq<uint8>, containsOffset: bool)
    requires |s| >= WORD_TEXT
    ensures ArrayStart(s, containsOffset) % 2 == 0
  {
    hide DecodeUint64;
  }

  lemma {:induction false} EvenElementsInside(s: seq<uint8>, n: nat, memory: Memory)
    requires |s| % 2 == 0
    ensures DecodeElements(s, n, memory) != StoredOutside
    decreases n
  {
    hide DecodeUint64, DecodeElements, Str2Hex, Filled, Base, AllHex;
    if n == 0 {
      NoneLeft(s, memory);
    } else {
      ElementsStep(s, n, memory);
      if |s| >= WORD_TEXT {
        var size, rest := DecodeUint64(s), s[WORD_TEXT..];
        EvenElementsInside(Drop(rest, WORD_TEXT * Groups(size)), n - 1, memory);
      }
    }
  }

  /** The concrete text: an empty element with a single digit behind it. */
  lemma OddTextStoresOutside(memory: Memory)
    ensures DecodeArray(HexText(WordOf(0) + WordOf(0)) + [48], 1, false, memory) == StoredOutside
  {
    hide WordOf, HexText, DecodeUint64;
    var w := WordOf(0);
    HexTextConcat(w, w);
    DecodeWord(0, [48]);
    var s := HexText(w + w) + [48];
    assert s[WORD_TEXT..] == HexText(w) + [48];
    assert (HexText(w) + [48])[WORD_TEXT..] == [48];
    assert HexValue(48) == 0;
  }

  /** An offset of 2^63 wraps around to 0: the array is found where the offset stands. */
  lemma WrappedOffset(b: seq<uint8>, memory: Memory)
    requires |b| <= MAX_SIZE
    ensures DecodeArray(HexText(WordOf(TWO64 / 2) + Element(b)), 1, true, memory) == Elements([b])
  {
    hide WordOf, HexText, DecodeUint64, DecodeElements, Element;
    var w := WordOf(TWO64 / 2);
    HexTextConcat(w, Element(b));
    DecodeWord(TWO64 / 2, HexText(Element(b)));
    var s := HexText(w + Element(b));
    assert s[0..] == s && s[WORD_TEXT..] == HexText(Element(b));
    TailsOne(b);
    DecodeTails([b], memory);
  }

  /** A length at or above the limit: a buffer of that size if the wrapped test passes, and an error otherwise. */
  lemma OversizedLength(v: nat, rest: seq<uint8>, n: nat, memory: Memory)
    requires LENGTH_LIMIT <= v < TWO64 && n > 0
    ensures DecodeElements(HexText(WordOf(v)) + rest, n, memory)
         == if WORD_TEXT + |rest| >= Wrapped(2 * v + WORD_TEXT) then Oversized else Failed([])
  {
    hide WordOf, HexText, DecodeUint64;
    DecodeWord(v, rest);
  }

  /** The concrete text: 2^63 + 1 and two characters. */
  lemma TwoCharactersOversized(memory: Memory)
    ensures DecodeArray(HexText(WordOf(0) + WordOf(TWO64 / 2 + 1)) + [48, 48], 1, false, memory) == Oversized
  {
    hide WordOf, HexText, DecodeUint64, DecodeElements;
    var head, w := WordOf(0), WordOf(TWO64 / 2 + 1);
    HexTextConcat(head, w);
    var s := HexText(head + w) + [48, 48];
    assert s[0..] == s && s[WORD_TEXT..] == HexText(w) + [48, 48];
    OversizedLength(TWO64 / 2 + 1, [48, 48], 1, memory);
  }

  /** A text that ends with the bytes of an element makes the decoder read the next length behind its end. */
  lemma MissingElement(b: seq<uint8>, memory: Memory)
    requires 0 < |b| <= MAX_SIZE
    ensures DecodeArray(HexText(WordOf(0) + WordOf(0) + (WordOf(|b|) + b)), 2, false, memory) == ReadOutside
  {
    hide WordOf, HexText, DecodeUint64, Str2Hex, SingleDigit, DecodeElements, Base;
    var heads, w := WordOf(0) + WordOf(0), WordOf(|b|);
    HexTextConcat(heads, w + b);
    HexTextConcat(w, b);
    var s, t := HexText(heads + (w + b)), HexText(w) + HexText(b);
    assert s[0..] == s && s[2 * WORD_TEXT..] == t;
    DecodeWord(|b|, HexText(b));
    assert t[WORD_TEXT..] == HexText(b) == HexText(b) + [];
    Str2HexOfHex(b, []);
    NotSingle(HexText(b), |b|);
    ElementsStep(t, 2, memory);
    assert Drop(HexText(b), WORD_TEXT * Groups(|b|)) == [];
    ElementsStep([], 1, memory);
  }

  lemma NotSingle(rest: seq<uint8>, size: nat)
    requires size > 0
    ensures !SingleDigit(rest, size)
  {}

  // ------------------------------------------------------------ the code: encoding

  function Reversed(s: seq<uint8>): (r: seq<uint8>)
    ensures |r| == |s|
  {
    seq(|s|, i requires 0 <= i < |s| => s[|s| - 1 - i])
  }

  lemma {:induction false} ReversedLittleEndian(v: nat, n: nat)
    ensures Reversed(LittleEndian(v, n)) == BeBytes(v, n)
  {
    if n > 0 {
      ReversedLittleEndian(v / 0x100, n - 1);
      var l := LittleEndian(v, n);
      assert l[1..] == LittleEndian(v / 0x100, n - 1);
      assert Reversed(l) == Reversed(l[1..]) + [l[0]];
    }
  }

  /** A 64-bit number from memory, in the last bytes of a word. */
  lemma WordFromMemory(v: nat)
    requires v < 0x1_0000_0000_0000_0000
    ensures WordOf(v) == seq(24, i => 0) + Reversed(LittleEndian(v, 8))
  {
    hide BeValue, BeBytes, LittleEndian, Pow, Number;
    var low, pad := BeBytes(v, 8), seq(24, i => 0);
    ReversedLittleEndian(v, 8);
    EightBytes();
    BeBytesValue(v, 8);
    WordRange(v);
    BeBytesValue(v, WORD);
    LeadingZerosVanish(0x100, pad + low, 24);
    assert (pad + low)[24..] == low;
    ValueIsNumber(pad + low);
    ValueIsNumber(low);
    BeUnique(WordOf(v), pad + low);
  }

  lemma ValueIsNumber(b: seq<uint8>)
    ensures BeValue(b) == Number(0x100, b)
  {}

  lemma WordRange(v: nat)
    requires v < 0x1_0000_0000_0000_0000
    ensures v < Pow(0x100, WORD)
  {
    hide Pow;
    EightBytes();
    PowMonotone(0x100, 8, WORD);
  }

  /** generateBytesForUint: the bytes of a number in memory, least significant first, as a word. */
  method GenerateUint(pVal: seq<uint8>, out: array<uint8>, at: nat) returns (bytes: int)
    requires at + WORD <= out.Length
    modifies out
    ensures |pVal| > WORD ==> bytes == -1 && out[..] == old(out[..])
    ensures |pVal| <= WORD ==>
      bytes == WORD && out[..at + WORD] == old(out[..at]) + (seq(WORD - |pVal|, i => 0) + Reversed(pVal))
  {
    var size := |pVal|;
    if size > WORD {
      return -1;
    }
    var padding := WORD - size;
    forall i | 0 <= i < padding {
      out[at + i] := 0;
    }
    ghost var base := out[..at + padding];
    assert base == old(out[..at]) + seq(padding, i => 0);
    for i := 0 to size
      invariant out[..at + padding + i] == base + Reversed(pVal)[..i]
    {
      ghost var done := out[..at + padding + i];
      out[at + padding + i] := pVal[size - i - 1];
      assert out[..at + padding + i + 1] == done + [Reversed(pVal)[i]];
      assert Reversed(pVal)[..i + 1] == Reversed(pVal)[..i] + [Reversed(pVal)[i]];
    }
    assert Reversed(pVal)[..size] == Reversed(pVal);
    bytes := WORD;
  }

  /** A 64-bit size or offset as a word. */
  method GenerateSize(v: nat, out: array<uint8>, at: nat)
    requires v < 0x1_0000_0000_0000_0000 && at + WORD <= out.Length
    modifies out
    ensures out[..at + WORD] == old(out[..at]) + WordOf(v)
  {
    hide WordOf, LittleEndian;
    WordFromMemory(v);
    var bytes := GenerateUint(LittleEndian(v, 8), out, at);
  }

  /** The weight of the last bit when v is rounded to the 24 bits of a float. */
  function Unit(v: nat): (u: nat)
    ensures u >= 1
  {
    if v < 0x100_0000 then 1 else 2 * Unit(v / 2)
  }

  /** To the nearest multiple of u, and in the middle to an even one. */
  function Rounded(v: nat, u: nat): nat
    requires u >= 1
  {
    var q, r := v / u, v % u;
    if 2 * r < u || (2 * r == u && q % 2 == 0) then q * u else (q + 1) * u
  }

  /** (float) v. */
  function Single(v: nat): nat {
    Rounded(v, Unit(v))
  }

  /** ceil((float) size / 32.0). */
  function CodeGroups(size: nat): nat {
    (Single(size) + 31) / 32
  }

  /** Sizes for which rounding to single precision does not change the number of words. */
  predicate ExactSize(size: nat) {
    var u := Unit(size);
    if u <= 32 then
      var t := size % 32;
      t == 0 || 2 * t > u || (2 * t == u == 32 && size / 32 % 2 == 1)
    else size % u == 0 || size % u > u - 32
  }

  lemma {:induction false} UnitShape(v: nat)
    ensures Unit(v) in {1, 2, 4, 8, 16, 32} || Unit(v) % 64 == 0
    ensures v < 0x100_0000 <==> Unit(v) == 1
  {
    if v >= 0x100_0000 {
      UnitShape(v / 2);
    }
  }

  /** The number of words is right exactly for these sizes, and they include everything up to 2^24. */
  lemma GroupsExact(size: nat)
    ensures CodeGroups(size) == Groups(size) <==> ExactSize(size)
    ensures size <= 0x100_0000 ==> ExactSize(size)
  {
    hide Unit;
    UnitShape(size);
    var u := Unit(size);
    if u % 64 == 0 {
      CoarseGroups(size, u);
    } else {
      FineGroups(size, u);
    }
    if size == 0x100_0000 {
      assert size % 32 == 0;
      LargestExact();
    }
  }

  lemma LargestExact()
    ensures Unit(0x100_0000) == 2
  {
    assert Unit(0x80_0000) == 1;
  }

  lemma FineGroups(size: nat, u: nat)
    requires u in {1, 2, 4, 8, 16, 32} && u == Unit(size)
    ensures CodeGroups(size) == Groups(size) <==> ExactSize(size)
  {
    hide Unit, Rounded;
    FineRounding(size, u);
  }

  /** A multiple of 32 below is reached, and no longer passed, exactly when the size is rounded down to it. */
  lemma FineRounding(size: nat, u: nat)
    requires u in {1, 2, 4, 8, 16, 32}
    ensures var g, t, v := size / 32, size % 32, Rounded(size, u);
      && 32 * g <= v <= 32 * (g + 1)
      && (v == 32 * g <==> t == 0 || 2 * t < u || (2 * t == u && (u < 32 || g % 2 == 0)))
  {
    hide Rounded;
    var g, t, k := size / 32, size % 32, 32 / u;
    assert u * k == 32;
    RoundedParts(g * k, t, u);
    assert g * k * u == 32 * g;
    assert u < 32 ==> k % 2 == 0;
    EvenMultiple(g, k);
  }

  lemma EvenMultiple(g: nat, k: nat)
    ensures k % 2 == 0 ==> g * k % 2 == 0
  {
    if k % 2 == 0 {
      assert g * k == 2 * (g * (k / 2));
    }
  }

  /** Rounding q * u + t. */
  lemma RoundedParts(q: nat, t: nat, u: nat)
    requires u in {1, 2, 4, 8, 16, 32} && t < 32
    ensures var v := Rounded(q * u + t, u);
      && q * u <= v <= q * u + 32
      && (v == q * u <==> t == 0 || 2 * t < u || (2 * t == u && q % 2 == 0))
  {
    hide Rounded;
    PartsOf(t, u);
    var p := t / u;
    Distribute(q, p, u);
    Distribute(q, p + 1, u);
    Distribute(p, 1, u);
    DivUnique(q * u + t, u, q + p, t % u);
    RoundedIs(q * u + t, u, q + p, t % u);
  }

  lemma Distribute(a: int, b: int, c: int)
    ensures (a + b) * c == a * c + b * c
  {}

  lemma RoundedIs(v: nat, u: nat, q: int, r: int)
    requires u >= 1 && v / u == q && v % u == r
    ensures Rounded(v, u) == if 2 * r < u || (2 * r == u && q % 2 == 0) then q * u else (q + 1) * u
  {}

  lemma PartsOf(t: nat, u: nat)
    requires u in {1, 2, 4, 8, 16, 32} && t < 32
    ensures t == t / u * u + t % u && 0 <= t % u < u && t / u * u + u <= 32
    ensures if t < u then t / u == 0 else t / u * u >= u
  {
    if t < u {
      DivUnique(t, u, 0, t);
    } else {
      MulMonotone(1, t / u, u);
    }
    if u == 16 {
    } else if u == 8 {
    } else if u == 4 {
    } else if u == 2 {
    }
  }

  lemma CoarseGroups(size: nat, u: nat)
    requires u > 0 && u % 64 == 0 && u == Unit(size)
    ensures CodeGroups(size) == Groups(size) <==> ExactSize(size)
  {
    hide Unit, Rounded, Groups;
    var qw := CoarseSingle(size, u);
    CoarseWords(qw, u / 32, size % u, Single(size));
  }

  lemma CoarseSingle(size: nat, u: nat) returns (qw: nat)
    requires u > 0 && u % 32 == 0
    ensures var v, r := Rounded(size, u), size % u;
      && size == 32 * qw + r && 0 <= r < u
      && (v == 32 * qw || v == 32 * qw + u)
      && (v == 32 * qw ==> 2 * r <= u) && (v > 32 * qw ==> 2 * r >= u)
  {
    hide Rounded;
    DivNonNegative(size, u);
    var q, r := size / u, size % u;
    RoundedIs(size, u, q, r);
    Distribute(q, 1, u);
    qw := q * (u / 32);
    Scaled(q, u);
  }

  lemma Scaled(q: int, u: int)
    requires u % 32 == 0
    ensures q * u == 32 * (q * (u / 32))
  {
    var w := u / 32;
    assert u == 32 * w;
  }

  lemma CoarseWords(qw: nat, w: nat, r: nat, v: nat)
    requires w % 2 == 0 && r < 32 * w
    requires v == 32 * qw || v == 32 * qw + 32 * w
    requires v == 32 * qw ==> r <= 16 * w
    requires v > 32 * qw ==> r >= 16 * w
    ensures (v + 31) / 32 == Groups(32 * qw + r) <==> r == 0 || r > 32 * w - 32
  {
    DivAddMultiple(r + 31, qw, 32);
    DivAddMultiple(31, v / 32, 32);
  }

  /** What generateBytesForStaticBytes stores: the bytes, and zeros up to the end of the last word that it counts. */
  function StaticBytes(b: seq<uint8>): (p: seq<uint8>)
    ensures |p| == if |b| <= WORD * CodeGroups(|b|) then WORD * CodeGroups(|b|) else |b|
    ensures b <= p
  {
    b + seq(if |b| <= WORD * CodeGroups(|b|) then WORD * CodeGroups(|b|) - |b| else 0, i => 0)
  }

  /** These bytes, and their number, are right exactly for the sizes above, and so up to 2^24. */
  lemma StaticBytesPadded(b: seq<uint8>)
    ensures StaticBytes(b) == PaddedBytes(b) && WORD * CodeGroups(|b|) == |PaddedBytes(b)| <==> ExactSize(|b|)
    ensures |b| <= 0x100_0000 ==> StaticBytes(b) == PaddedBytes(b)
  {
    hide CodeGroups, ExactSize;
    GroupsExact(|b|);
    assert |PaddedBytes(b)| == WORD * Groups(|b|) >= |b|;
  }

  function ToInt32(v: nat): int {
    if v % TWO32 < 0x8000_0000 then v % TWO32 else v % TWO32 - TWO32
  }

  /** generateBytesForStaticBytes. */
  method GenerateStaticBytes(pVal: seq<uint8>, out: array<uint8>, at: nat) returns (bytes: int)
    requires at + |StaticBytes(pVal)| <= out.Length
    modifies out
    ensures bytes == ToInt32(WORD * CodeGroups(|pVal|))
    ensures out[..] == Overwritten(old(out[..]), at, StaticBytes(pVal))
  {
    hide CodeGroups;
    ghost var before := out[..];
    var total := CodeGroups(|pVal|) * WORD;
    forall i | 0 <= i < total {
      out[at + i] := 0;
    }
    for i := 0 to |pVal|
      invariant forall k :: at <= k < at + i ==> out[k] == pVal[k - at]
      invariant forall k :: at + i <= k < at + total ==> out[k] == 0
      invariant forall k :: 0 <= k < at || at + |StaticBytes(pVal)| <= k < out.Length ==> out[k] == before[k]
    {
      out[at + i] := pVal[i];
    }
    bytes := ToInt32(total);
    ghost var b := StaticBytes(pVal);
    assert forall k :: 0 <= k < |b| ==> out[at + k] == b[k];
    OverwrittenAt(before, out[..], at, b);
  }

  /** generateBytesForBytes, into a buffer of the size that its caller reserves. */
  method GenerateBytes(pVal: seq<uint8>) returns (data: seq<uint8>)
    requires |pVal| <= MAX_SIZE && ExactSize(|pVal|)
    ensures data == Element(pVal)
  {
    hide WordOf, PaddedBytes, StaticBytes, CodeGroups, ExactSize;
    GroupsExact(|pVal|);
    StaticBytesPadded(pVal);
    var buf := new uint8[(CodeGroups(|pVal|) + 1) * WORD];
    GenerateSize(|pVal|, buf, 0);
    ghost var head := buf[..];
    assert head[..0] == [] && head[..0 + WORD] == head[..WORD];
    var bytes := GenerateStaticBytes(pVal, buf, WORD);
    data := buf[..];
    assert head[WORD + |PaddedBytes(pVal)|..] == [];
  }

  lemma {:induction false} TailsBound(list: seq<seq<uint8>>)
    requires Small(list)
    ensures |Tails(list)| <= |list| * (MAX_SIZE + 64)
  {
    if list != [] {
      TailsBound(list[..|list| - 1]);
    }
  }

  lemma TailsSnoc(list: seq<seq<uint8>>, i: nat)
    requires i < |list|
    ensures Tails(list[..i + 1]) == Tails(list[..i]) + Element(list[i])
  {
    hide Element;
    assert list[..i + 1][..i] == list[..i];
  }

  /** Every offset fits in 64 bits. */
  lemma OffsetFits(list: seq<seq<uint8>>, i: nat)
    requires Small(list) && i <= |list| < 0x8000_0000
    ensures Offset(list, i) < 0x1_0000_0000_0000_0000
  {
    TailsBound(list[..i]);
  }

  /** generateBytesForStaticArrayOfDynamicElements: the tails first, then the heads, then all of it together. */
  method GenerateArray(list: seq<seq<uint8>>) returns (data: seq<uint8>)
    requires Small(list) && |list| < 0x8000_0000
    requires forall i :: 0 <= i < |list| ==> ExactSize(|list[i]|)
    ensures data == Encoded(list)
  {
    hide WordOf, Element, Tails, Heads, ExactSize;
    var n := |list|;
    var offsets := new nat[n];
    var sizes := new nat[n];
    var elements := new seq<uint8>[n];
    for i := 0 to n
      invariant forall k :: 0 <= k < i ==> elements[k] == Element(list[k]) && sizes[k] == |elements[k]|
    {
      elements[i] := GenerateBytes(list[i]);
      sizes[i] := |elements[i]|;
    }
    data := [];
    NoHeads(list);
    for i := 0 to n
      invariant forall k :: 0 <= k < n ==> elements[k] == Element(list[k]) && sizes[k] == |elements[k]|
      invariant forall k :: 0 <= k < i ==> offsets[k] == Offset(list, k)
      invariant data == Heads(list, i)
    {
      if i == 0 {
        offsets[0] := WORD * n;
        FirstOffset(list);
      } else {
        offsets[i] := offsets[i - 1] + sizes[i - 1];
        TailsSnoc(list, i - 1);
      }
      OffsetFits(list, i);
      var buf := new uint8[WORD];
      GenerateSize(offsets[i], buf, 0);
      assert buf[..] == buf[..0 + WORD] && buf[..0] == [];
      NextHead(list, i);
      data := data + buf[..];
    }
    FirstOffset(list);
    for i := 0 to n
      invariant forall k :: 0 <= k < n ==> elements[k] == Element(list[k])
      invariant data == Heads(list, n) + Tails(list[..i])
    {
      TailsSnoc(list, i);
      data := data + elements[i];
    }
    assert list[..n] == list;
  }

  lemma NoHeads(list: seq<seq<uint8>>)
    ensures Heads(list, 0) == []
  {}

  lemma NextHead(list: seq<seq<uint8>>, i: nat)
    requires i < |list|
    ensures Heads(list, i + 1) == Heads(list, i) + WordOf(Offset(list, i))
  {}

  lemma FirstOffset(list: seq<seq<uint8>>)
    ensures Tails(list[..0]) == [] && Offset(list, 0) == WORD * |list|
  {
    assert list[..0] == [];
  }

  // ------------------------------------------------------------ the code: decoding

  /** hex2str: two digits a byte, if there is room for all of them. */
  method Hex2Str(hex: seq<uint8>, str: array<uint8>) returns (ok: bool)
    modifies str
    ensures ok <==> 2 * |hex| <= str.Length
    ensures str[..] == if ok then Overwritten(old(str[..]), 0, HexText(hex)) else old(str[..])
  {
    hide HexText;
    if str.Length < |hex| * 2 {
      return false;
    }
    ghost var before := str[..];
    NoText();
    var cur := 0;
    for i := 0 to |hex|
      invariant cur == 2 * i && str[..cur] == HexText(hex[..i])
      invariant forall k :: cur <= k < str.Length ==> str[k] == before[k]
    {
      TextStep(hex, i);
      ghost var done := str[..cur];
      str[cur] := HexDigit(hex[i] / 16);
      cur := cur + 1;
      str[cur] := HexDigit(hex[i] % 16);
      cur := cur + 1;
      assert str[..cur] == done + [HexDigit(hex[i] / 16)] + [HexDigit(hex[i] % 16)];
    }
    assert hex[..|hex|] == hex;
    assert str[..] == str[..cur] + before[cur..];
    ok := true;
  }

  lemma NoText()
    ensures HexText([]) == []
  {}

  lemma TextStep(b: seq<uint8>, i: nat)
    requires i < |b|
    ensures HexText(b[..i + 1]) == HexText(b[..i]) + [HexDigit(b[i] / 16)] + [HexDigit(b[i] % 16)]
  {
    HexTextConcat(b[..i], [b[i]]);
    assert b[..i + 1] == b[..i] + [b[i]];
    assert HexText([b[i]]) == [HexDigit(b[i] / 16)] + [HexDigit(b[i] % 16)];
  }

  /** str2hex into a buffer of size bytes, with at least one byte of memory behind it. */
  method StrToHex(str: seq<uint8>, hex: array<uint8>, at: nat, size: nat, strLength: nat) returns (ok: bool, cur: nat)
    requires strLength <= |str| && at + size < hex.Length
    modifies hex
    ensures ok <==> Str2Hex(str, size, strLength).Some?
    ensures cur == |Stored(str, size, strLength)| <= size + 1
    ensures hex[..] == Overwritten(old(hex[..]), at, Stored(str, size, strLength))
  {
    hide Unhexed, Converted;
    StoresInside(str, size, strLength);
    var end := if strLength == 0 then |str| else strLength;
    var it := 0;
    if end >= 2 && str[0] == 48 && str[1] == 120 {
      it := 2;
    }
    if size < (end - it) / 2 {
      return false, 0;
    }
    assert DigitsOf(str, strLength) == str[it..end];
    ok, cur := Convert(str[it..end], hex, at);
  }

  /** The conversion loop. */
  method Convert(digits: seq<uint8>, hex: array<uint8>, at: nat) returns (ok: bool, cur: nat)
    requires at + (|digits| + 1) / 2 <= hex.Length
    modifies hex
    ensures ok <==> AllHex(digits)
    ensures cur == |Converted(digits)| <= (|digits| + 1) / 2
    ensures hex[..] == Overwritten(old(hex[..]), at, Converted(digits))
  {
    hide Converted, Unhexed, AllHex, HexValue, Overwritten;
    var it := 0;
    cur := 0;
    ghost var before, done, rest := hex[..], [], digits;
    NoDigits();
    ConvertedLength(digits);
    while it != |digits|
      invariant it == 2 * cur <= |digits| && |done| == cur && rest == digits[it..]
      invariant (AllHex(rest) <==> AllHex(digits)) && done + Converted(rest) == Converted(digits)
      invariant forall k :: 0 <= k < cur ==> hex[at + k] == done[k]
      invariant forall k :: 0 <= k < at || at + cur <= k < hex.Length ==> hex[k] == before[k]
      decreases |digits| - it
    {
      var high := HexValue(digits[it]);
      DigitsStep(rest);
      if high == -1 {
        assert done + [] == done;
        OverwrittenAt(before, hex[..], at, done);
        return false, cur;
      }
      it := it + 1;
      if it == |digits| {
        hex[at + cur] := high;
        cur := cur + 1;
        done := done + [high];
        OverwrittenAt(before, hex[..], at, done);
        return true, cur;
      }
      var low := HexValue(digits[it]);
      if low == -1 {
        assert done + [] == done;
        OverwrittenAt(before, hex[..], at, done);
        return false, cur;
      }
      it := it + 1;
      rest := rest[2..];
      hex[at + cur] := high * 16 + low;
      cur := cur + 1;
      done := done + [high * 16 + low];
    }
    assert done + [] == done;
    OverwrittenAt(before, hex[..], at, done);
    ok := true;
  }

  lemma NoDigits()
    ensures AllHex([]) && Unhexed([]) == [] == Converted([])
  {}

  lemma DigitsStep(s: seq<uint8>)
    requires s != []
    ensures |s| == 1 ==>
      && (AllHex(s) <==> HexValue(s[0]) >= 0) && (AllHex(s) ==> Unhexed(s) == [HexValue(s[0])])
      && Converted(s) == if HexValue(s[0]) >= 0 then [HexValue(s[0])] else []
    ensures |s| > 1 ==>
      && (AllHex(s) <==> HexValue(s[0]) >= 0 && HexValue(s[1]) >= 0 && AllHex(s[2..]))
      && (AllHex(s) ==> Unhexed(s) == [HexValue(s[0]) * 16 + HexValue(s[1])] + Unhexed(s[2..]))
      && Converted(s) == if HexValue(s[0]) >= 0 && HexValue(s[1]) >= 0 then
                           [HexValue(s[0]) * 16 + HexValue(s[1])] + Converted(s[2..])
                         else []
  {
    hide HexValue;
    if |s| > 1 && HexValue(s[0]) >= 0 && HexValue(s[1]) >= 0 && AllHex(s[2..]) {
      forall i | 0 <= i < |s|
        ensures HexValue(s[i]) >= 0
      {
        assert i >= 2 ==> s[i] == s[2..][i - 2];
      }
    }
    if |s| > 1 && AllHex(s) {
      assert forall i :: 0 <= i < |s| - 2 ==> s[2..][i] == s[i + 2];
    }
  }

  /** decodeUint64 on the first word of the text: the bytes are reversed in memory and read as a number. */
  method ReadUint64(s: seq<uint8>) returns (v: nat)
    requires |s| >= WORD_TEXT
    ensures v == DecodeUint64(s)
  {
    hide Str2Hex, BeValue, Stored;
    var bytes := new uint8[9](i => 0);
    StoresInside(s[48..], 8, 16);
    var ok, cur := StrToHex(s[48..], bytes, 0, 8, 16);
    if !ok {
      return 0;
    }
    v := BeValue(bytes[..8]);
    EightDigits(s[48..]);
    assert bytes[..8] == Filled(Stored(s[48..], 8, 16), Zeros(8));
  }

  lemma EightDigits(s: seq<uint8>)
    requires |s| >= 16
    ensures |Stored(s, 8, 16)| <= 8
  {
    hide Converted;
    ConvertedLength(DigitsOf(s, 16));
  }

  /** The result is what was decoded before the first error; leaving memory ends the model. */
  method DecodeStaticArrayDynamicBytes(data: seq<uint8>, arraySize: nat, containsArrayOffset: bool, memory: Memory)
    returns (out: Decoded)
    ensures out == DecodeArray(data, arraySize, containsArrayOffset, memory)
  {
    hide DecodeUint64, DecodeElements, Str2Hex;
    var pData := data;
    if |pData| < WORD_TEXT {
      return Failed([]);
    }
    if containsArrayOffset {
      var offset := ReadUint64(pData);
      if |pData| < Wrapped(2 * offset) {
        return Failed([]);
      }
      pData := pData[Wrapped(2 * offset)..];
    }
    if |pData| < Wrapped(arraySize * WORD_TEXT) {
      return Failed([]);
    }
    if |pData| < arraySize * WORD_TEXT {
      // only when the product wrapped around: the heads do not end inside the text
      return ReadOutside;
    }
    pData := SkipHeads(pData, arraySize);
    out := ReadElements(pData, arraySize, memory);
  }

  /** The heads are not parsed, only passed over. */
  method SkipHeads(s: seq<uint8>, n: nat) returns (rest: seq<uint8>)
    requires n * WORD_TEXT <= |s|
    ensures rest == s[n * WORD_TEXT..]
  {
    rest := s;
    for i := 0 to n
      invariant rest == s[i * WORD_TEXT..]
    {
      rest := rest[WORD_TEXT..];
    }
  }

  lemma NotWrapped(v: nat)
    ensures v < TWO64 ==> Wrapped(v) == v
  {}

  method ReadElements(s: seq<uint8>, n: nat, memory: Memory) returns (out: Decoded)
    ensures out == DecodeElements(s, n, memory)
  {
    hide DecodeElements;
    var rest, list := s, [];
    NoneBefore(DecodeElements(s, n, memory));
    for i := 0 to n
      invariant DecodeElements(s, n, memory) == Behind(list, DecodeElements(rest, n - i, memory))
    {
      var state, element, more := ReadElement(rest, n - i, memory);
      if !state.Elements? {
        return Behind(list, state);
      }
      BehindTwice(list, element, DecodeElements(more, n - i - 1, memory));
      rest, list := more, list + [element];
    }
    NoneLeft(rest, memory);
    assert list + [] == list;
    out := Elements(list);
  }

  /** One pass of the loop: the element and the text behind it, or how decoding ends. */
  method ReadElement(s: seq<uint8>, n: nat, memory: Memory)
    returns (state: Decoded, element: seq<uint8>, more: seq<uint8>)
    requires n > 0
    ensures DecodeElements(s, n, memory)
         == if state.Elements? then Behind([element], DecodeElements(more, n - 1, memory)) else state
  {
    hide DecodeUint64, DecodeElements, Str2Hex, Filled, SingleDigit, Base, Wrapped;
    ElementsStep(s, n, memory);
    element, more := [], [];
    if |s| < 48 {
      return ReadOutside, element, more;
    }
    if |s| < WORD_TEXT {
      return Failed([]), element, more;
    }
    var size := ReadUint64(s);
    if |s| < Wrapped(2 * size + WORD_TEXT) {
      return Failed([]), element, more;
    }
    if size >= LENGTH_LIMIT {
      return Oversized, element, more;
    }
    NotWrapped(2 * size + WORD_TEXT);
    more := s[WORD_TEXT..];
    state, element := ReadBytes(more, size, n, memory);
    if !state.Elements? {
      return;
    }
    var wordCount := size / 32;
    if size % 32 != 0 {
      wordCount := wordCount + 1;
    }
    assert wordCount == Groups(size);
    more := Drop(more, wordCount * WORD_TEXT);
  }

  /** The bytes of one element, through a buffer that is not initialized. */
  method ReadBytes(rest: seq<uint8>, size: nat, n: nat, memory: Memory) returns (state: Decoded, element: seq<uint8>)
    requires 2 * size <= |rest|
    ensures state == if SingleDigit(rest, size) then StoredOutside
                     else if Str2Hex(rest, size, 2 * size).None? then Failed([])
                     else Elements([])
    ensures state.Elements? ==> element == Filled(Str2Hex(rest, size, 2 * size).value, Base(memory, n, size))
  {
    hide Str2Hex, Stored, SingleDigit;
    StoresInside(rest, size, 2 * size);
    SingleDigitStored(rest, size);
    var buf := new uint8[size + 1](k requires k >= 0 => memory(n, k));
    var ok, cur := StrToHex(rest, buf, 0, size, 2 * size);
    if cur > size {
      return StoredOutside, [];
    }
    if !ok {
      return Failed([]), [];
    }
    state, element := Elements([]), buf[..size];
  }

  lemma SingleDigitStored(rest: seq<uint8>, size: nat)
    requires 2 * size <= |rest|
    ensures SingleDigit(rest, size) <==> |Stored(rest, size, 2 * size)| > size
  {
    hide AllHex, Converted, Unhexed;
    StoresInside(rest, size, 2 * size);
  }

  lemma NoneBefore(d: Decoded)
    ensures Behind([], d) == d
  {
    assert d.Elements? ==> [] + d.list == d.list;
    assert d.Failed? ==> [] + d.before == d.before;
  }

  lemma NoneLeft(s: seq<uint8>, memory: Memory)
    ensures DecodeElements(s, 0, memory) == Elements([])
  {}

  lemma BehindTwice(list: seq<seq<uint8>>, b: seq<uint8>, d: Decoded)
    ensures Behind(list, Behind([b], d)) == Behind(list + [b], d)
  {
    assert d.Elements? ==> list + ([b] + d.list) == list + [b] + d.list;
    assert d.Failed? ==> list + ([b] + d.before) == list + [b] + d.before;
  }

  lemma ElementsStep(s: seq<uint8>, n: nat, memory: Memory)
    requires n > 0
    ensures |s| < WORD_TEXT ==> DecodeElements(s, n, memory) == ShortWord(s)
    ensures |s| >= WORD_TEXT ==>
      var size, rest := DecodeUint64(s), s[WORD_TEXT..];
      && (|s| < Wrapped(2 * size + WORD_TEXT) ==> DecodeElements(s, n, memory) == Failed([]))
      && (|s| >= Wrapped(2 * size + WORD_TEXT) && size >= LENGTH_LIMIT ==> DecodeElements(s, n, memory) == Oversized)
      && (|s| >= Wrapped(2 * size + WORD_TEXT) && size < LENGTH_LIMIT ==>
        var b := Str2Hex(rest, size, 2 * size);
        DecodeElements(s, n, memory)
        == if SingleDigit(rest, size) then StoredOutside
           else if b.None? then Failed([])
           else Behind([Filled(b.value, Base(memory, n, size))],
                       DecodeElements(Drop(rest, WORD_TEXT * Groups(size)), n - 1, memory)))
  {
    hide DecodeUint64, Str2Hex, Filled, SingleDigit, Base;
  }

  // ------------------------------------------------------ where the bytes stand

  /** The word at this place holds the number v. */
  ghost predicate WordAt(code: seq<uint8>, at: nat, v: nat) {
    && at + 32 <= |code|
    && (v < 0x1_0000000000000000_0000000000000000_0000000000000000_0000000000000000 ==> BeValue(code[at..at + 32]) == v)
  }

  /** From at up to next stand the size of b, its bytes, and zeros up to the end of the last word. */
  ghost predicate ElementAt(code: seq<uint8>, at: nat, next: nat, b: seq<uint8>) {
    var end := at + 32 + |b|;
    && end <= next <= |code| && next < end + 32 && (next - at) % 32 == 0
    && WordAt(code, at, |b|) && code[at + 32..end] == b && forall k :: end <= k < next ==> code[k] == 0
  }

  lemma WordOfValue(code: seq<uint8>, at: nat, v: nat)
    requires at + 32 <= |code| && code[at..at + 32] == WordOf(v)
    ensures WordAt(code, at, v)
  {
    hide BeValue, BeBytes;
    if v < 0x1_0000000000000000_0000000000000000_0000000000000000_0000000000000000 {
      BytesPow();
      BeBytesValue(v, 32);
    }
  }

  lemma ElementIs(code: seq<uint8>, at: nat, b: seq<uint8>)
    requires at + |Element(b)| <= |code| && code[at..at + |Element(b)|] == Element(b)
    ensures ElementAt(code, at, at + |Element(b)|, b)
  {
    hide WordOf, WordAt;
    var e, next := Element(b), at + |Element(b)|;
    assert code[at..at + 32] == e[..32] == WordOf(|b|);
    WordOfValue(code, at, |b|);
    assert code[at + 32..at + 32 + |b|] == e[32..32 + |b|] == b;
    forall k | at + 32 + |b| <= k < next
      ensures code[k] == 0
    {
      assert code[at..next][k - at] == e[k - at] == PaddedBytes(b)[k - at - 32];
    }
  }

  /** The heads are words with these positions, at which the elements stand one behind the other up to the end. */
  ghost predicate StandsAt(code: seq<uint8>, list: seq<seq<uint8>>, at: seq<nat>) {
    && |at| == |list| + 1 && at[0] == 32 * |list| && at[|list|] == |code|
    && forall i :: 0 <= i < |list| ==> WordAt(code, 32 * i, at[i]) && ElementAt(code, at[i], at[i + 1], list[i])
  }

  lemma EncodedMeaning(list: seq<seq<uint8>>)
    ensures exists at :: StandsAt(Encoded(list), list, at)
  {
    hide WordOf, Element, Encoded, WordAt, ElementAt, Offset;
    var at := seq(|list| + 1, i requires 0 <= i <= |list| => Offset(list, i));
    forall i | 0 <= i < |list|
      ensures WordAt(Encoded(list), 32 * i, at[i]) && ElementAt(Encoded(list), at[i], at[i + 1], list[i])
    {
      HeadsPointToElements(list, i);
      WordOfValue(Encoded(list), 32 * i, at[i]);
      ElementIs(Encoded(list), at[i], list[i]);
      NextOffset(list, i);
    }
    EncodedLength(list);
    assert StandsAt(Encoded(list), list, at);
  }

  lemma NextOffset(list: seq<seq<uint8>>, i: nat)
    requires i < |list|
    ensures Offset(list, i + 1) == Offset(list, i) + |Element(list[i])|
  {
    hide Element;
    assert list[..i + 1][..i] == list[..i];
  }

  lemma EncodedLength(list: seq<seq<uint8>>)
    ensures |Encoded(list)| == Offset(list, |list|) && Offset(list, 0) == 32 * |list|
  {
    hide WordOf, Element;
    if list != [] {
      HeadsAt(list, |list|, 0);
    }
    assert list[..|list|] == list;
  }

  /** What is stored for static bytes is zero behind the bytes. */
  lemma StaticBytesZero(b: seq<uint8>, k: nat)
    requires k < |StaticBytes(b)|
    ensures StaticBytes(b)[k] == if k < |b| then b[k] else 0
  {}

  // --------------------------------------------------- reading hexadecimal text

  /** The digits d, in either case, are those of the bytes b; an odd last digit is a byte of its own. */
  ghost predicate DigitsRead(d: seq<uint8>, b: seq<uint8>) {
    && |b| == (|d| + 1) / 2
    && forall i :: 0 <= i < |b| ==>
         if 2 * i + 1 < |d| then IsDigit(d[2 * i], b[i] / 16) && IsDigit(d[2 * i + 1], b[i] % 16)
         else IsDigit(d[2 * i], b[i])
  }

  lemma {:induction false} UnhexedExactly(d: seq<uint8>, b: seq<uint8>)
    ensures AllHex(d) && Unhexed(d) == b <==> DigitsRead(d, b)
  {
    hide AllHex, Unhexed, DigitsRead, HexValue, IsDigit;
    if |d| > 1 {
      AllHexTail(d);
      if AllHex(d) {
        UnhexedStep(d, b);
      }
      if b == [] {
        NothingRead(d);
      } else {
        UnhexedExactly(d[2..], b[1..]);
        DigitPair(d[0], d[1], b[0]);
        PairsRead(d, b);
      }
    } else if |d| == 1 {
      OneDigitRead(d, b);
    } else {
      NoDigitsRead(b);
    }
  }

  lemma UnhexedStep(d: seq<uint8>, b: seq<uint8>)
    requires |d| > 1 && AllHex(d) && AllHex(d[2..]) && HexValue(d[0]) >= 0 && HexValue(d[1]) >= 0
    ensures Unhexed(d) == b
       <==> b != [] && b[0] == HexValue(d[0]) * 16 + HexValue(d[1]) && Unhexed(d[2..]) == b[1..]
  {
    hide HexValue, AllHex;
    Prepended(HexValue(d[0]) * 16 + HexValue(d[1]), Unhexed(d[2..]), b);
  }

  lemma Prepended(h: uint8, t: seq<uint8>, b: seq<uint8>)
    ensures [h] + t == b <==> b != [] && b[0] == h && t == b[1..]
  {
    if b != [] && b[0] == h && t == b[1..] {
      assert b == [b[0]] + b[1..];
    }
  }

  lemma NothingRead(d: seq<uint8>)
    requires |d| > 1
    ensures !DigitsRead(d, [])
  {}

  lemma NoDigitsRead(b: seq<uint8>)
    ensures AllHex([]) && (Unhexed([]) == b <==> DigitsRead([], b))
  {}

  lemma AllHexTail(d: seq<uint8>)
    requires |d| > 1
    ensures AllHex(d) <==> HexValue(d[0]) >= 0 && HexValue(d[1]) >= 0 && AllHex(d[2..])
  {
    hide HexValue;
    if AllHex(d[2..]) {
      forall i | 2 <= i < |d|
        ensures HexValue(d[i]) >= 0
      {
        assert d[i] == d[2..][i - 2];
      }
    }
  }

  lemma OneDigitRead(d: seq<uint8>, b: seq<uint8>)
    requires |d| == 1
    ensures AllHex(d) && Unhexed(d) == b <==> DigitsRead(d, b)
  {
    hide HexValue, IsDigit;
    if |b| == 1 && b[0] < 16 {
      DigitLaw(d[0], b[0]);
    }
    if HexValue(d[0]) >= 0 {
      DigitLaw(d[0], HexValue(d[0]));
    }
    if DigitsRead(d, b) {
      DigitBelow(d[0], b[0]);
      assert b == [b[0]];
    }
  }

  lemma DigitBelow(c: uint8, d: int)
    ensures IsDigit(c, d) ==> 0 <= d < 16
  {}

  lemma DigitPair(c: uint8, d: uint8, v: uint8)
    ensures IsDigit(c, v / 16) && IsDigit(d, v % 16)
       <==> HexValue(c) >= 0 && HexValue(d) >= 0 && v == HexValue(c) * 16 + HexValue(d)
  {
    hide HexValue, IsDigit;
    DigitLaw(c, v / 16);
    DigitLaw(d, v % 16);
  }

  lemma PairsRead(d: seq<uint8>, b: seq<uint8>)
    requires |d| > 1 && b != []
    ensures DigitsRead(d, b) <==> IsDigit(d[0], b[0] / 16) && IsDigit(d[1], b[0] % 16) && DigitsRead(d[2..], b[1..])
  {
    hide IsDigit;
    var e, c := d[2..], b[1..];
    if DigitsRead(d, b) {
      forall i | 0 <= i < |c|
        ensures if 2 * i + 1 < |e| then IsDigit(e[2 * i], c[i] / 16) && IsDigit(e[2 * i + 1], c[i] % 16)
          else IsDigit(e[2 * i], c[i])
      {
        assert c[i] == b[i + 1] && e[2 * i] == d[2 * (i + 1)];
      }
    }
    if IsDigit(d[0], b[0] / 16) && IsDigit(d[1], b[0] % 16) && DigitsRead(e, c) {
      forall i | 0 <= i < |b|
        ensures if 2 * i + 1 < |d| then IsDigit(d[2 * i], b[i] / 16) && IsDigit(d[2 * i + 1], b[i] % 16)
          else IsDigit(d[2 * i], b[i])
      {
        if i > 0 {
          assert b[i] == c[i - 1] && d[2 * i] == e[2 * (i - 1)];
          assert 2 * i + 1 < |d| ==> d[2 * i + 1] == e[2 * (i - 1) + 1];
        }
      }
    }
  }

  /** What is converted: the first strLength characters, or all for a length of zero, behind an optional "0x". */
  lemma Str2HexMeaning(str: seq<uint8>, size: nat, strLength: nat, b: seq<uint8>)
    requires strLength <= |str|
    ensures var s := if strLength == 0 then str else str[..strLength];
      var d := if |s| >= 2 && s[0] as char == '0' && s[1] as char == 'x' then s[2..] else s;
      Str2Hex(str, size, strLength) == Some(b) <==> |d| / 2 <= size && DigitsRead(d, b)
  {
    hide AllHex, Unhexed, DigitsRead;
    UnhexedExactly(DigitsOf(str, strLength), b);
  }
}
