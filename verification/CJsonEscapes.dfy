/** What the escapes in a JSON string stand for, read off the characters themselves. */
module CJsonEscapes {
  import opened Hex
  import opened ModArith
  import opened Wrappers
  import opened CJson
  import opened CJsonParse

  /** A character that stands for itself, a letter behind a backslash, or a code point in one or two escapes. */
  datatype Piece = Plain(c: uint8) | Letter(c: uint8) | CodePoint(value: nat)

  function Length(piece: Piece): nat {
    match piece
    case Plain(_) => 1
    case Letter(_) => 2
    case CodePoint(value) => if value < 0x1_0000 then 6 else 12
  }

  /** A backslash, a "u" and the four digits of a 16-bit unit. */
  predicate UnitAt(content: seq<uint8>, p: nat, unit: nat) {
    && p + 6 <= |content| && unit < 0x1_0000 && content[p] == 92 && content[p + 1] == 117
    && IsDigit(content[p + 2], unit / 4096) && IsDigit(content[p + 3], unit / 256 % 16)
    && IsDigit(content[p + 4], unit / 16 % 16) && IsDigit(content[p + 5], unit % 16)
  }

  predicate PieceAt(content: seq<uint8>, p: nat, piece: Piece) {
    match piece
    case Plain(c) => p < |content| && content[p] == c && c != 34 && c != 92
    case Letter(c) =>
      p + 2 <= |content| && content[p] == 92 && content[p + 1] == c && c in {34, 92, 47, 98, 102, 110, 114, 116}
    case CodePoint(value) =>
      if value < 0x1_0000 then !(0xD800 <= value < 0xE000) && UnitAt(content, p, value)
      else
        && value < 0x11_0000
        && UnitAt(content, p, 0xD800 + (value - 0x1_0000) / 1024)
        && UnitAt(content, p + 6, 0xDC00 + (value - 0x1_0000) % 1024)
  }

  predicate Continues(b: uint8) {
    0x80 <= b < 0xC0
  }

  function Bits(b: uint8, marker: int): int {
    b - marker
  }

  /** The code point that the bytes are the shortest UTF-8 form of (section 3 of RFC 3629). */
  function ReadUtf8(b: seq<uint8>): Option<int> {
    if |b| == 1 && b[0] < 0x80 then Some(b[0])
    else if |b| == 2 && 0xC2 <= b[0] < 0xE0 && Continues(b[1]) then
      Some(Bits(b[0], 0xC0) * 64 + Bits(b[1], 0x80))
    else if |b| == 3 && 0xE0 <= b[0] < 0xF0 && Continues(b[1]) && Continues(b[2])
         && (b[0] == 0xE0 ==> b[1] >= 0xA0) && (b[0] == 0xED ==> b[1] < 0xA0) then
      Some(Bits(b[0], 0xE0) * 4096 + Bits(b[1], 0x80) * 64 + Bits(b[2], 0x80))
    else if |b| == 4 && 0xF0 <= b[0] < 0xF5 && Continues(b[1]) && Continues(b[2]) && Continues(b[3])
         && (b[0] == 0xF0 ==> b[1] >= 0x90) && (b[0] == 0xF4 ==> b[1] < 0x90) then
      Some(Bits(b[0], 0xF0) * 262144 + Bits(b[1], 0x80) * 4096 + Bits(b[2], 0x80) * 64 + Bits(b[3], 0x80))
    else None
  }

  predicate StandsFor(piece: Piece, b: seq<uint8>) {
    match piece
    case Plain(c) => b == [c]
    case Letter(c) =>
      |b| == 1 && (b[0], c) in {(34, 34), (92, 92), (47, 47), (8, 98), (12, 102), (10, 110), (13, 114), (9, 116)}
    case CodePoint(value) => ReadUtf8(b) == Some(value)
  }

  /** The pieces one behind the other, from p up to end. */
  predicate Spelled(content: seq<uint8>, p: nat, end: nat, pieces: seq<Piece>)
    decreases pieces
  {
    if pieces == [] then p == end
    else PieceAt(content, p, pieces[0]) && Spelled(content, p + Length(pieces[0]), end, pieces[1..])
  }

  ghost predicate StandFor(pieces: seq<Piece>, b: seq<uint8>)
    decreases pieces
  {
    if pieces == [] then b == []
    else exists k :: 0 <= k <= |b| && StandsFor(pieces[0], b[..k]) && StandFor(pieces[1..], b[k..])
  }

  /** An escape that means nothing: cut off, with an unknown letter, or a surrogate without its partner. */
  ghost predicate Meaningless(content: seq<uint8>, p: nat, unit: nat) {
    && p < |content| && content[p] == 92
    && (|| p + 1 == |content|
        || content[p + 1] !in {34, 92, 47, 98, 102, 110, 114, 116, 117}
        || (&& UnitAt(content, p, unit) && 0xD800 <= unit < 0xE000
            && (unit < 0xDC00 ==> !SecondHalfAt(content, p + 6))))
  }

  ghost predicate SecondHalfAt(content: seq<uint8>, p: nat) {
    exists unit: nat :: UnitAt(content, p, unit) && 0xDC00 <= unit < 0xE000
  }

  // ----------------------------------------------------------------- one piece

  lemma DigitsOfUnit(unit: int)
    requires 0 <= unit < 0x1_0000
    ensures ((unit / 4096 * 16 + unit / 256 % 16) * 16 + unit / 16 % 16) * 16 + unit % 16 == unit
    ensures unit / 4096 < 16
  {}

  lemma UnitIsHex4(content: seq<uint8>, p: nat, unit: nat)
    requires UnitAt(content, p, unit)
    ensures Hex4(content[p + 2..p + 6]) == unit
    ensures forall k :: p + 2 <= k < p + 6 ==> content[k] != 34 && content[k] != 92
  {
    hide HexValue;
    DigitLaw(content[p + 2], unit / 4096);
    DigitLaw(content[p + 3], unit / 256 % 16);
    DigitLaw(content[p + 4], unit / 16 % 16);
    DigitLaw(content[p + 5], unit % 16);
    DigitsOfUnit(unit);
    DigitPlain(content[p + 2], unit / 4096);
    DigitPlain(content[p + 3], unit / 256 % 16);
    DigitPlain(content[p + 4], unit / 16 % 16);
    DigitPlain(content[p + 5], unit % 16);
  }

  lemma DigitPlain(c: uint8, d: int)
    requires IsDigit(c, d)
    ensures c != 34 && c != 92
  {}

  /** The scan for the closing quote passes an escape of a unit. */
  lemma PassUnit(content: seq<uint8>, p: nat, unit: nat)
    requires UnitAt(content, p, unit)
    ensures StringEnd(content, p) == StringEnd(content, p + 6)
  {
    UnitIsHex4(content, p, unit);
    PassPlain(content, p + 2);
    PassPlain(content, p + 3);
    PassPlain(content, p + 4);
    PassPlain(content, p + 5);
  }

  lemma SixBitGroups(c: nat)
    ensures c == c / 64 * 64 + c % 64
    ensures c == c / 4096 * 4096 + c / 64 % 64 * 64 + c % 64
    ensures c == c / 262144 * 262144 + c / 4096 % 64 * 4096 + c / 64 % 64 * 64 + c % 64
  {
    Quotients(c);
    var d := c / 64;
    var e := d / 64;
    assert c == d * 64 + c % 64 && d == e * 64 + d % 64 && e == e / 64 * 64 + e % 64;
  }

  lemma Quotients(c: nat)
    ensures c / 4096 == c / 64 / 64 && c / 262144 == c / 64 / 64 / 64
  {}

  /** The bytes that are written for a code point are its UTF-8 form. */
  lemma Utf8Reads(codepoint: nat)
    requires codepoint < 0x11_0000 && !(0xD800 <= codepoint < 0xE000)
    ensures ReadUtf8(Utf8(codepoint)) == Some(codepoint)
  {
    if codepoint < 0x80 {
    } else if codepoint < 0x800 {
      SixBitGroups(codepoint);
    } else if codepoint < 0x1_0000 {
      ThreeBytes(codepoint);
    } else {
      FourBytes(codepoint);
    }
  }

  lemma ThreeBytes(c: nat)
    requires 0x800 <= c < 0x1_0000 && !(0xD800 <= c < 0xE000)
    ensures ReadUtf8(Utf8(c)) == Some(c)
  {
    SixBitGroups(c);
    var b := Utf8(c);
    assert b[0] == 0xE0 + c / 4096 && b[1] == 0x80 + c / 64 % 64 && b[2] == 0x80 + c % 64;
    assert Continues(b[1]) && Continues(b[2]);
    assert b[0] == 0xE0 ==> b[1] >= 0xA0;
    assert b[0] == 0xED ==> b[1] < 0xA0;
  }

  lemma FourBytes(c: nat)
    requires 0x1_0000 <= c < 0x11_0000
    ensures ReadUtf8(Utf8(c)) == Some(c)
  {
    SixBitGroups(c);
    var b := Utf8(c);
    assert b[0] == 0xF0 + c / 262144 && b[1] == 0x80 + c / 4096 % 64;
    assert b[2] == 0x80 + c / 64 % 64 && b[3] == 0x80 + c % 64;
    assert Continues(b[1]) && Continues(b[2]) && Continues(b[3]);
    assert b[0] == 0xF0 ==> b[1] >= 0x90;
    assert b[0] == 0xF4 ==> b[1] < 0x90;
  }

  lemma PairTogether(v: nat)
    requires v < 0x10_0000
    ensures 0xD800 <= 0xD800 + v / 1024 < 0xDC00 && 0xDC00 <= 0xDC00 + v % 1024 < 0xE000
    ensures (0xD800 + v / 1024) % 0x400 * 0x400 + (0xDC00 + v % 1024) % 0x400 == v
  {}

  /** The escapes of a code point are passed and read together. */
  lemma PassCodePoint(content: seq<uint8>, p: nat, value: nat, end: nat)
    requires PieceAt(content, p, CodePoint(value))
    ensures var n := Length(CodePoint(value));
      && p + n <= |content| && StringEnd(content, p) == StringEnd(content, p + n)
      && (p + n <= end < |content| ==> Utf16(content, p, end) == Some(Literal(value, n)))
  {
    hide Hex4, IsDigit, StringEnd;
    if value < 0x1_0000 {
      PassUnit(content, p, value);
      UnitIsHex4(content, p, value);
    } else {
      var v := value - 0x1_0000;
      PairTogether(v);
      PassUnit(content, p, 0xD800 + v / 1024);
      PassUnit(content, p + 6, 0xDC00 + v % 1024);
      UnitIsHex4(content, p, 0xD800 + v / 1024);
      UnitIsHex4(content, p + 6, 0xDC00 + v % 1024);
    }
  }

  lemma BeginsEscape(content: seq<uint8>, p: nat, value: nat)
    requires PieceAt(content, p, CodePoint(value))
    ensures p + 1 < |content| && content[p] == 92 && content[p + 1] == 117
    ensures value < 0x11_0000 && !(0xD800 <= value < 0xE000)
  {
    hide IsDigit;
  }

  /** A piece is passed as a whole, and unescaping it gives what it stands for. */
  lemma PassPiece(content: seq<uint8>, p: nat, piece: Piece, end: nat) returns (b: seq<uint8>)
    requires PieceAt(content, p, piece)
    ensures p + Length(piece) <= |content| && StringEnd(content, p) == StringEnd(content, p + Length(piece))
    ensures StandsFor(piece, b)
    ensures p + Length(piece) <= end < |content| ==>
      && Unescape(content, p, end) == Prepend(b, Unescape(content, p + Length(piece), end))
      && FirstBad(content, p, end) == FirstBad(content, p + Length(piece), end)
  {
    hide UnitAt, Utf16, Utf8, ReadUtf8;
    match piece {
      case Plain(c) => b := [c];
      case Letter(c) => b := [ShortMeaning(c).value];
      case CodePoint(value) =>
        BeginsEscape(content, p, value);
        PassCodePoint(content, p, value, end);
        Utf8Reads(value);
        b := Utf8(value);
    }
  }

  // ------------------------------------------------------------------ strings

  lemma PrependNothing(r: Option<seq<uint8>>)
    ensures Prepend([], r) == r
  {
    if r.Some? {
      assert [] + r.value == r.value;
    }
  }

  lemma PrependTwice(a: seq<uint8>, b: seq<uint8>, r: Option<seq<uint8>>)
    ensures Prepend(a, Prepend(b, r)) == Prepend(a + b, r)
  {
    if r.Some? {
      assert a + (b + r.value) == a + b + r.value;
    }
  }

  lemma {:induction false} PassPieces(content: seq<uint8>, p: nat, q: nat, pieces: seq<Piece>, end: nat)
    returns (b: seq<uint8>)
    requires Spelled(content, p, q, pieces) && q <= |content|
    ensures p <= q && StringEnd(content, p) == StringEnd(content, q) && StandFor(pieces, b)
    ensures q <= end < |content| ==>
      && Unescape(content, p, end) == Prepend(b, Unescape(content, q, end))
      && FirstBad(content, p, end) == FirstBad(content, q, end)
    decreases pieces
  {
    hide PieceAt, StringEnd, Unescape, FirstBad, StandsFor;
    if pieces == [] {
      b := [];
      PrependNothing(if q <= end < |content| then Unescape(content, q, end) else None);
    } else {
      var n := Length(pieces[0]);
      var first := PassPiece(content, p, pieces[0], end);
      var rest := PassPieces(content, p + n, q, pieces[1..], end);
      b := first + rest;
      PrependTwice(first, rest, if q <= end < |content| then Unescape(content, q, end) else None);
      assert b[..|first|] == first && b[|first|..] == rest;
    }
  }

  /** A quoted list of pieces parses to the bytes that the pieces stand for. */
  lemma PiecesParse(content: seq<uint8>, o: nat, q: nat, pieces: seq<Piece>)
    requires o < q < |content| && content[o] == 34 && Spelled(content, o + 1, q, pieces) && content[q] == 34
    ensures ParseString(content, o).Quotation? && ParseString(content, o).next == q + 1
    ensures StandFor(pieces, ParseString(content, o).bytes)
  {
    hide Spelled, StandFor;
    var b := PassPieces(content, o + 1, q, pieces, q);
    assert b + [] == b;
  }

  /** A code point below 0x110000 in one escape or two, with digits in either case, parses to its UTF-8 form. */
  lemma CodePointParses(content: seq<uint8>, o: nat, value: nat)
    requires o < |content| && content[o] == 34 && PieceAt(content, o + 1, CodePoint(value))
    requires var q := o + 1 + Length(CodePoint(value)); q < |content| && content[q] == 34
    ensures var r := ParseString(content, o);
      r.Quotation? && r.next == o + Length(CodePoint(value)) + 2 && ReadUtf8(r.bytes) == Some(value)
  {
    hide PieceAt, ReadUtf8;
    var q := o + 1 + Length(CodePoint(value));
    var pieces := [CodePoint(value)];
    assert pieces[1..] == [];
    assert Spelled(content, o + 1, q, pieces);
    PiecesParse(content, o, q, pieces);
    var b := ParseString(content, o).bytes;
    var k :| 0 <= k <= |b| && StandsFor(pieces[0], b[..k]) && StandFor(pieces[1..], b[k..]);
    assert b[k..] == [] && b[..k] == b;
  }

  /** Where the digits are digits, the value is that of the unit. */
  lemma Hex4IsUnit(content: seq<uint8>, p: nat)
    requires p + 6 <= |content| && content[p] == 92 && content[p + 1] == 117
    ensures var unit := Hex4(content[p + 2..p + 6]);
      unit > 0 ==> UnitAt(content, p, unit)
  {
    hide HexValue, IsDigit;
    var a, b := HexValue(content[p + 2]), HexValue(content[p + 3]);
    var c, d := HexValue(content[p + 4]), HexValue(content[p + 5]);
    if a >= 0 && b >= 0 && c >= 0 && d >= 0 {
      DigitLaw(content[p + 2], a);
      DigitLaw(content[p + 3], b);
      DigitLaw(content[p + 4], c);
      DigitLaw(content[p + 5], d);
      UnitDigits(a, b, c, d);
    }
  }

  lemma UnitDigits(a: int, b: int, c: int, d: int)
    requires 0 <= a < 16 && 0 <= b < 16 && 0 <= c < 16 && 0 <= d < 16
    ensures var unit := ((a * 16 + b) * 16 + c) * 16 + d;
      unit / 4096 == a && unit / 256 % 16 == b && unit / 16 % 16 == c && unit % 16 == d
  {}

  lemma MeaninglessUnit(content: seq<uint8>, p: nat, unit: nat, end: nat)
    requires Meaningless(content, p, unit) && p + 1 < |content| && content[p + 1] == 117
    requires end < |content| && p < end
    ensures Utf16(content, p, end) == None
  {
    hide Hex4, IsDigit;
    UnitIsHex4(content, p, unit);
    if p + 12 <= end && content[p + 6] == 92 && content[p + 7] == 117 {
      Hex4IsUnit(content, p + 6);
    }
  }

  /** A meaningless escape behind any pieces makes the string malformed there, unless it is not closed at all. */
  lemma MeaninglessRejected(content: seq<uint8>, o: nat, q: nat, pieces: seq<Piece>, unit: nat)
    requires o < q <= |content| && content[o] == 34 && Spelled(content, o + 1, q, pieces)
    requires Meaningless(content, q, unit)
    ensures ParseString(content, o) == Malformed(q) || ParseString(content, o) == Malformed(o + 1)
  {
    hide Spelled, StandFor, IsDigit, Utf16;
    var end := StringEnd(content, o + 1);
    if end.Some? {
      var b := PassPieces(content, o + 1, q, pieces, end.value);
      assert q < end.value;
      if content[q + 1] == 117 {
        MeaninglessUnit(content, q, unit, end.value);
      } else {
        assert ShortMeaning(content[q + 1]) == None;
      }
      assert Unescape(content, q, end.value) == None;
    }
  }

  /** An escape in which some character is no digit is accepted, as code point 0. */
  lemma BadDigitsReadZero(content: seq<uint8>, o: nat, bad: nat)
    requires o + 7 < |content| && content[o] == 34 && content[o + 1] == 92 && content[o + 2] == 117
    requires forall k :: o + 3 <= k < o + 7 ==> content[k] != 34 && content[k] != 92
    requires o + 3 <= bad < o + 7 && forall d :: !IsDigit(content[bad], d)
    requires content[o + 7] == 34
    ensures ParseString(content, o) == Quotation([0], o + 8)
  {
    hide HexValue, IsDigit;
    var value := HexValue(content[bad]);
    if value >= 0 {
      DigitLaw(content[bad], value);
    }
    assert content[o + 3..o + 7][bad - o - 3] == content[bad];
    assert Hex4(content[o + 3..o + 7]) == 0;
    PassPlain(content, o + 3);
    PassPlain(content, o + 4);
    PassPlain(content, o + 5);
    PassPlain(content, o + 6);
    assert StringEnd(content, o + 1) == Some(o + 7);
    assert Utf16(content, o + 1, o + 7) == Some(Literal(0, 6));
    assert Unescape(content, o + 7, o + 7) == Some([]);
    assert Utf8(0) + [] == [0];
  }

  // ------------------------------------------------------------------- printing

  /** What a character is printed as. */
  lemma PrintedCharacter(c: uint8)
    ensures c >= 32 && c != 34 && c != 92 ==> EscapeChar(c) == [c]
    ensures c in {34, 92} ==> EscapeChar(c) == [92, c]
    ensures forall l: uint8 ::
      (c, l) in {(8, 98), (12, 102), (10, 110), (13, 114), (9, 116)} ==> EscapeChar(c) == [92, l]
    ensures c < 32 && c !in {8, 12, 10, 13, 9} ==> |EscapeChar(c)| == 6 && UnitAt(EscapeChar(c), 0, c)
  {
    if c < 32 {
      DigitLaw(HexDigit(c / 16), c / 16);
      DigitLaw(HexDigit(c % 16), c % 16);
    }
  }

  lemma QuotedPlain(c: uint8)
    requires c >= 32 && c != 34 && c != 92
    ensures Quoted([c]) == [34, c, 34] && Quoted([]) == [34, 34]
  {
    assert Escaped([c]) == [c] + Escaped([]);
  }

  /** null, true, false and empty lists. */
  lemma PrintedWords()
    ensures Text(Null) == [110, 117, 108, 108] && Text(True) == [116, 114, 117, 101]
    ensures Text(False) == [102, 97, 108, 115, 101] && Text(Array([])) == [91, 93] && Text(Object([])) == [123, 125]
  {
    assert [91] + [93] == [91, 93] && [123] + [125] == [123, 125];
  }

  /** [v,w] has no blank between its tokens. */
  lemma PrintedArray(v: Json, w: Json)
    ensures Text(Array([v, w])) == [91] + Text(v) + [44] + Text(w) + [93]
  {
    hide Text;
    var j := Array([v, w]);
    assert ItemsText(j, 2) == [93];
    assert ItemsText(j, 1) == Text(w) + [] + [93];
    assert ItemsText(j, 0) == Text(v) + [44] + ItemsText(j, 1);
    ArrayText(j);
  }

  lemma ArrayText(j: Json)
    ensures j.Array? ==> Text(j) == [91] + ItemsText(j, 0)
    ensures j.Object? ==> Text(j) == [123] + MembersText(j, 0)
  {}

  /** Nor has {"c":v,"":w}. */
  lemma PrintedObject(c: uint8, v: Json, w: Json)
    requires c >= 32 && c != 34 && c != 92
    ensures Text(Object([Member([c], v), Member([], w)]))
         == [123] + [34, c, 34] + [58] + Text(v) + [44] + [34, 34] + [58] + Text(w) + [125]
  {
    hide Text, Quoted;
    var j := Object([Member([c], v), Member([], w)]);
    QuotedPlain(c);
    assert MembersText(j, 2) == [125];
    assert MembersText(j, 1) == MemberText(j.members[1]) + [] + [125];
    assert MembersText(j, 0) == MemberText(j.members[0]) + [44] + MembersText(j, 1);
    ArrayText(j);
  }
}
