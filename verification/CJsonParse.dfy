/** Parsing JSON text, and the proof that it undoes printing. */
module CJsonParse {
  import opened Hex
  import opened ModArith
  import opened Wrappers
  import opened CJson

  const NESTING_LIMIT: nat := 1000

  /** A value and the offset behind it, or the offset and the depth at which parsing stopped. */
  datatype Result = Failure(at: nat, depth: nat) | Success(value: Json, next: nat)

  /** A string and the offset behind it, or the offset at which it is malformed. */
  datatype Quotation = Malformed(at: nat) | Quotation(bytes: seq<uint8>, next: nat)

  /** The conversion of number text: a value, and how many characters it took, zero for none. */
  type Strtod = seq<uint8> -> (int, nat)

  ghost predicate ValidStrtod(strtod: Strtod) {
    forall t :: strtod(t).1 <= |t|
  }

  // ------------------------------------------------------------- specification

  /** The text t begins at offset o. */
  predicate IsAt(content: seq<uint8>, o: nat, t: seq<uint8>) {
    o + |t| <= |content| && content[o..o + |t|] == t
  }

  function FirstVisible(content: seq<uint8>, o: nat): (p: nat)
    requires o <= |content|
    ensures o <= p <= |content| && (forall i :: o <= i < p ==> content[i] <= 32) && (p < |content| ==> content[p] > 32)
    decreases |content| - o
  {
    if o < |content| && content[o] <= 32 then FirstVisible(content, o + 1) else o
  }

  /** Past white space and control characters, but never past the last byte unless already there. */
  function Skip(content: seq<uint8>, o: nat): (p: nat)
    requires o <= |content|
    ensures o <= p <= |content| && (o < |content| ==> p < |content|)
  {
    if o >= |content| then o
    else
      var p := FirstVisible(content, o);
      if p == |content| then p - 1 else p
  }

  // ---------------------------------------------------------------- strings

  /** The closing quote of a string whose first character is at p. */
  function StringEnd(content: seq<uint8>, p: nat): (end: Option<nat>)
    ensures end.Some? ==> p <= end.value < |content| && content[end.value] == QUOTE
    decreases |content| - p
  {
    if p >= |content| then None
    else if content[p] == QUOTE then Some(p)
    else if content[p] == BACKSLASH then
      if p + 1 >= |content| then None else StringEnd(content, p + 2)
    else StringEnd(content, p + 1)
  }

  /** Four hexadecimal digits, or zero when one of them is not a digit. */
  function Hex4(s: seq<uint8>): (h: nat)
    requires |s| == 4
    ensures h < 0x1_0000
  {
    var a, b, c, d := HexValue(s[0]), HexValue(s[1]), HexValue(s[2]), HexValue(s[3]);
    if a < 0 || b < 0 || c < 0 || d < 0 then 0 else ((a * 16 + b) * 16 + c) * 16 + d
  }

  function Utf8(codepoint: nat): (b: seq<uint8>)
    requires codepoint < 0x11_0000
    ensures 1 <= |b| <= 4 && (codepoint < 0x1_0000 ==> |b| <= 3)
  {
    if codepoint < 0x80 then [codepoint]
    else if codepoint < 0x800 then [0xC0 + codepoint / 64, 0x80 + codepoint % 64]
    else if codepoint < 0x1_0000 then [0xE0 + codepoint / 4096, 0x80 + codepoint / 64 % 64, 0x80 + codepoint % 64]
    else
      [0xF0 + codepoint / 262144, 0x80 + codepoint / 4096 % 64, 0x80 + codepoint / 64 % 64, 0x80 + codepoint % 64]
  }

  datatype Literal = Literal(codepoint: nat, length: nat)

  /** The one or two UTF-16 escapes at p, before end. */
  function Utf16(content: seq<uint8>, p: nat, end: nat): (r: Option<Literal>)
    requires end <= |content|
    ensures r.Some? ==>
      && r.value.codepoint < 0x11_0000 && p + r.value.length <= end
      && (r.value.length == 12 || (r.value.length == 6 && r.value.codepoint < 0x1_0000))
  {
    if end < p + 6 then None
    else
      var first := Hex4(content[p + 2..p + 6]);
      if 0xDC00 <= first <= 0xDFFF then None
      else if 0xD800 <= first <= 0xDBFF then
        if end < p + 12 || content[p + 6] != BACKSLASH || content[p + 7] != 117 then None
        else
          var second := Hex4(content[p + 8..p + 12]);
          if second < 0xDC00 || second > 0xDFFF then None
          else Some(Literal(0x1_0000 + first % 0x400 * 0x400 + second % 0x400, 12))
      else Some(Literal(first, 6))
  }

  /** What the letter after a backslash stands for, if it stands for one byte. */
  function ShortMeaning(c: uint8): Option<uint8> {
    if c == 98 then Some(8)
    else if c == 102 then Some(12)
    else if c == 110 then Some(10)
    else if c == 114 then Some(13)
    else if c == 116 then Some(9)
    else if c == QUOTE || c == BACKSLASH || c == 47 then Some(c)
    else None
  }

  function Prepend(a: seq<uint8>, r: Option<seq<uint8>>): Option<seq<uint8>> {
    if r.Some? then Some(a + r.value) else None
  }

  /** The bytes that the text from p to end stands for. */
  function Unescape(content: seq<uint8>, p: nat, end: nat): Option<seq<uint8>>
    requires end < |content|
    decreases if p <= end then end - p else 0
  {
    if p >= end then Some([])
    else if content[p] != BACKSLASH then Prepend([content[p]], Unescape(content, p + 1, end))
    else if content[p + 1] == 117 then
      var literal := Utf16(content, p, end);
      if literal.None? then None
      else Prepend(Utf8(literal.value.codepoint), Unescape(content, p + literal.value.length, end))
    else
      var c := ShortMeaning(content[p + 1]);
      if c.None? then None else Prepend([c.value], Unescape(content, p + 2, end))
  }

  /** Where unescaping stops: at the first escape that means nothing, or behind the last character. */
  function FirstBad(content: seq<uint8>, p: nat, end: nat): nat
    requires end < |content|
    decreases if p <= end then end - p else 0
  {
    if p >= end then p
    else if content[p] != BACKSLASH then FirstBad(content, p + 1, end)
    else if content[p + 1] == 117 then
      var literal := Utf16(content, p, end);
      if literal.None? then p else FirstBad(content, p + literal.value.length, end)
    else if ShortMeaning(content[p + 1]).None? then p
    else FirstBad(content, p + 2, end)
  }

  /** A string whose opening quote is at o. */
  function ParseString(content: seq<uint8>, o: nat): (r: Quotation)
    requires o <= |content|
    ensures r.Quotation? ==> o < r.next <= |content|
  {
    if o >= |content| || content[o] != QUOTE then Malformed(o + 1)
    else
      var end := StringEnd(content, o + 1);
      if end.None? then Malformed(o + 1)
      else
        var s := Unescape(content, o + 1, end.value);
        if s.None? then Malformed(FirstBad(content, o + 1, end.value)) else Quotation(s.value, end.value + 1)
  }

  // ----------------------------------------------------------------- values

  predicate NumberCharacter(c: uint8) {
    48 <= c <= 57 || c == 43 || c == 45 || c == 46 || c == 69 || c == 101
  }

  /** At most 63 characters of number text. */
  function NumberText(content: seq<uint8>, o: nat, n: nat): (t: seq<uint8>)
    requires o <= |content|
    ensures |t| <= |content| - o
    decreases n
  {
    if n == 0 || o >= |content| || !NumberCharacter(content[o]) then []
    else [content[o]] + NumberText(content, o + 1, n - 1)
  }

  function ParseNumber(strtod: Strtod, content: seq<uint8>, o: nat, depth: nat): (r: Result)
    requires o < |content|
    ensures ValidStrtodAt(strtod, NumberText(content, o, 63)) && r.Success? ==> o < r.next <= |content|
  {
    var (value, used) := strtod(NumberText(content, o, 63));
    if used == 0 then Failure(o, depth) else Success(Number(value), o + used)
  }

  predicate ValidStrtodAt(strtod: Strtod, t: seq<uint8>) {
    strtod(t).1 <= |t|
  }

  ghost function ParseValue(strtod: Strtod, content: seq<uint8>, o: nat, depth: nat): (r: Result)
    requires ValidStrtod(strtod) && o <= |content|
    ensures r.Success? ==> o < r.next <= |content|
    decreases |content| - o, 2
  {
    if IsAt(content, o, NULL_TEXT) then Success(Null, o + 4)
    else if IsAt(content, o, FALSE_TEXT) then Success(False, o + 5)
    else if IsAt(content, o, TRUE_TEXT) then Success(True, o + 4)
    else if o >= |content| then Failure(o, depth)
    else if content[o] == QUOTE then
      var s := ParseString(content, o);
      if s.Malformed? then Failure(s.at, depth) else Success(String(s.bytes), s.next)
    else if content[o] == 45 || 48 <= content[o] <= 57 then ParseNumber(strtod, content, o, depth)
    else if content[o] == OPEN_ARRAY then ParseArray(strtod, content, o, depth)
    else if content[o] == OPEN_OBJECT then ParseObject(strtod, content, o, depth)
    else Failure(o, depth)
  }

  ghost function ParseArray(strtod: Strtod, content: seq<uint8>, o: nat, depth: nat): (r: Result)
    requires ValidStrtod(strtod) && o < |content|
    ensures r.Success? ==> o < r.next <= |content|
    decreases |content| - o, 1
  {
    var p := Skip(content, o + 1);
    if depth >= NESTING_LIMIT then Failure(o, depth)
    else if p >= |content| then Failure(p - 1, depth + 1)
    else if content[p] == CLOSE_ARRAY then Success(Array([]), p + 1)
    else ParseItems(strtod, content, p - 1, depth + 1, [])
  }

  /** The items behind the bracket or comma at o. */
  ghost function ParseItems(strtod: Strtod, content: seq<uint8>, o: nat, depth: nat, items: seq<Json>): (r: Result)
    requires ValidStrtod(strtod) && o < |content|
    ensures r.Success? ==> o < r.next <= |content|
    decreases |content| - o, 0
  {
    var v := ParseValue(strtod, content, Skip(content, o + 1), depth);
    if v.Failure? then v
    else
      var e := Skip(content, v.next);
      if e < |content| && content[e] == COMMA then ParseItems(strtod, content, e, depth, items + [v.value])
      else if e < |content| && content[e] == CLOSE_ARRAY then Success(Array(items + [v.value]), e + 1)
      else Failure(e, depth)
  }

  ghost function ParseObject(strtod: Strtod, content: seq<uint8>, o: nat, depth: nat): (r: Result)
    requires ValidStrtod(strtod) && o < |content|
    ensures r.Success? ==> o < r.next <= |content|
    decreases |content| - o, 1
  {
    var p := Skip(content, o + 1);
    if depth >= NESTING_LIMIT then Failure(o, depth)
    else if p >= |content| then Failure(p - 1, depth + 1)
    else if content[p] == CLOSE_OBJECT then Success(Object([]), p + 1)
    else ParseMembers(strtod, content, p - 1, depth + 1, [])
  }

  /** The members behind the brace or comma at o. */
  ghost function ParseMembers(strtod: Strtod, content: seq<uint8>, o: nat, depth: nat, members: seq<Member>)
    : (r: Result)
    requires ValidStrtod(strtod) && o < |content|
    ensures r.Success? ==> o < r.next <= |content|
    decreases |content| - o, 0
  {
    var name := ParseString(content, Skip(content, o + 1));
    if name.Malformed? then Failure(name.at, depth)
    else
      var c := Skip(content, name.next);
      if c >= |content| || content[c] != COLON then Failure(c, depth)
      else
        var v := ParseValue(strtod, content, Skip(content, c + 1), depth);
        if v.Failure? then v
        else
          var e := Skip(content, v.next);
          var more := members + [Member(name.bytes, v.value)];
          if e < |content| && content[e] == COMMA then ParseMembers(strtod, content, e, depth, more)
          else if e < |content| && content[e] == CLOSE_OBJECT then Success(Object(more), e + 1)
          else Failure(e, depth)
  }

  const BOM: seq<uint8> := [0xEF, 0xBB, 0xBF]

  /** A tree and where the parser stopped, or the position of the error. */
  datatype Document = Parsed(item: Json, end: nat) | Rejected(position: nat)

  /** The position that is reported for an error at offset o: inside the text. */
  function ErrorAt(content: seq<uint8>, o: nat): nat {
    if o < |content| then o else if |content| > 0 then |content| - 1 else 0
  }

  /** A zero-terminated text, optionally with nothing but white space behind the value. */
  ghost function Parse(strtod: Strtod, content: seq<uint8>, requireEnd: bool): Document
    requires ValidStrtod(strtod)
  {
    var start := if 4 < |content| && IsAt(content, 0, BOM) then 3 else 0;
    var v := ParseValue(strtod, content, Skip(content, start), 0);
    if v.Failure? then Rejected(ErrorAt(content, v.at))
    else
      var e := if requireEnd then Skip(content, v.next) else v.next;
      if requireEnd && (e >= |content| || content[e] != 0) then Rejected(ErrorAt(content, e)) else Parsed(v.value, e)
  }

  // ------------------------------------------------------- parsing printed text

  lemma AtParts(content: seq<uint8>, o: nat, a: seq<uint8>, b: seq<uint8>)
    requires IsAt(content, o, a + b)
    ensures IsAt(content, o, a) && IsAt(content, o + |a|, b)
  {
    var c := content[o..o + |a + b|];
    assert content[o..o + |a|] == c[..|a|];
    assert content[o + |a|..o + |a| + |b|] == c[|a|..];
  }

  lemma AtByte(content: seq<uint8>, o: nat, t: seq<uint8>)
    requires IsAt(content, o, t)
    ensures forall k :: 0 <= k < |t| ==> content[o + k] == t[k]
  {
    forall k | 0 <= k < |t|
      ensures content[o + k] == t[k]
    {
      assert content[o..o + |t|][k] == content[o + k];
    }
  }

  /** Each escaped character is passed over as a unit, and none of it looks like the closing quote. */
  lemma {:induction false} EndOfEscaped(content: seq<uint8>, p: nat, s: seq<uint8>)
    requires IsAt(content, p, Escaped(s) + [QUOTE])
    ensures StringEnd(content, p) == Some(p + |Escaped(s)|)
    decreases |s|
  {
    hide EscapeChar;
    if s == [] {
      AtByte(content, p, [QUOTE]);
    } else {
      var e, rest := EscapeChar(s[0]), Escaped(s[1..]);
      assert Escaped(s) + [QUOTE] == e + (rest + [QUOTE]);
      AtParts(content, p, e, rest + [QUOTE]);
      EndOfEscaped(content, p + |e|, s[1..]);
      PassEscape(content, p, s[0]);
    }
  }

  lemma PassEscape(content: seq<uint8>, p: nat, c: uint8)
    requires IsAt(content, p, EscapeChar(c))
    ensures StringEnd(content, p) == StringEnd(content, p + |EscapeChar(c)|)
  {
    var e := EscapeChar(c);
    AtByte(content, p, e);
    assert content[p + 0] == e[0];
    if |e| == 6 {
      assert content[p + 2] == e[2] && content[p + 3] == e[3] && content[p + 4] == e[4] && content[p + 5] == e[5];
      PassPlain(content, p + 2);
      PassPlain(content, p + 3);
      PassPlain(content, p + 4);
      PassPlain(content, p + 5);
    }
  }

  lemma PassPlain(content: seq<uint8>, p: nat)
    requires p < |content| && content[p] != QUOTE && content[p] != BACKSLASH
    ensures StringEnd(content, p) == StringEnd(content, p + 1)
  {}

  /** One escaped character decodes to itself. */
  lemma UnescapeOne(content: seq<uint8>, p: nat, end: nat, c: uint8)
    requires IsAt(content, p, EscapeChar(c)) && p + |EscapeChar(c)| <= end < |content|
    ensures Unescape(content, p, end) == Prepend([c], Unescape(content, p + |EscapeChar(c)|, end))
  {
    AtByte(content, p, EscapeChar(c));
    if |EscapeChar(c)| == 6 {
      var h := content[p + 2..p + 6];
      assert h == [48, 48, HexDigit(c / 16), HexDigit(c % 16)];
      HexDigitValue(0);
      HexDigitValue(c / 16);
      HexDigitValue(c % 16);
      assert Hex4(h) == c;
      assert Utf16(content, p, end) == Some(Literal(c, 6));
    }
  }

  /** Unescaping undoes escaping. */
  lemma {:induction false} UnescapeEscaped(content: seq<uint8>, p: nat, end: nat, s: seq<uint8>)
    requires IsAt(content, p, Escaped(s)) && p + |Escaped(s)| == end < |content|
    ensures Unescape(content, p, end) == Some(s)
    decreases |s|
  {
    hide EscapeChar;
    if s != [] {
      var e, rest := EscapeChar(s[0]), Escaped(s[1..]);
      AtParts(content, p, e, rest);
      UnescapeOne(content, p, end, s[0]);
      UnescapeEscaped(content, p + |e|, end, s[1..]);
      assert s == [s[0]] + s[1..];
    }
  }

  lemma ParseQuoted(content: seq<uint8>, o: nat, s: seq<uint8>)
    requires IsAt(content, o, Quoted(s))
    ensures ParseString(content, o) == Quotation(s, o + |Quoted(s)|)
  {
    hide Escaped, StringEnd, Unescape;
    assert Quoted(s) == [QUOTE] + (Escaped(s) + [QUOTE]);
    AtParts(content, o, [QUOTE], Escaped(s) + [QUOTE]);
    AtByte(content, o, [QUOTE]);
    EndOfEscaped(content, o + 1, s);
    AtParts(content, o + 1, Escaped(s), [QUOTE]);
    UnescapeEscaped(content, o + 1, o + 1 + |Escaped(s)|, s);
  }

  /** The first character of a text is visible and tells the kinds of values apart. */
  lemma TextBegins(j: Json)
    requires Printable(j)
    ensures |Text(j)| > 0
    ensures Text(j)[0] == match j
      case Null => 110
      case True => 116
      case False => 102
      case String(_) => QUOTE
      case Array(_) => OPEN_ARRAY
      case Object(_) => OPEN_OBJECT
      case Number(_) => 0
  {
    hide Escaped, ItemsText, MembersText;
  }

  lemma NotAt(content: seq<uint8>, o: nat, t: seq<uint8>)
    requires o < |content| && |t| > 0 && content[o] != t[0]
    ensures !IsAt(content, o, t)
  {
    assert o + |t| <= |content| ==> content[o..o + |t|][0] == content[o];
  }

  lemma NotLiteral(content: seq<uint8>, o: nat)
    requires o < |content|
    ensures content[o] != 110 ==> !IsAt(content, o, NULL_TEXT)
    ensures content[o] != 116 ==> !IsAt(content, o, TRUE_TEXT)
    ensures content[o] != 102 ==> !IsAt(content, o, FALSE_TEXT)
  {
    if content[o] != 110 {
      NotAt(content, o, NULL_TEXT);
    }
    if content[o] != 116 {
      NotAt(content, o, TRUE_TEXT);
    }
    if content[o] != 102 {
      NotAt(content, o, FALSE_TEXT);
    }
  }

  /** What parsing a printed value gives: the value, unless it is nested too deeply. */
  ghost predicate Expected(r: Result, j: Json, depth: nat, next: nat) {
    if depth <= NESTING_LIMIT then r == Success(j, next) else r.Failure?
  }

  /** Parsing undoes printing, wherever the text stands and whatever follows it. */
  lemma {:induction false} ParseText(strtod: Strtod, content: seq<uint8>, o: nat, depth: nat, j: Json)
    requires ValidStrtod(strtod) && Printable(j) && IsAt(content, o, Text(j)) && depth <= NESTING_LIMIT
    ensures Expected(ParseValue(strtod, content, o, depth), j, depth + Depth(j), o + |Text(j)|)
    decreases j, 3, 0
  {
    hide Text, ParseString, ParseArray, ParseObject, Depth;
    TextBegins(j);
    AtByte(content, o, Text(j));
    LeafDepth(j);
    LeafText(j);
    NotLiteral(content, o);
    match j {
      case String(s) => ParseQuoted(content, o, s);
      case Array(_) => ParseArrayText(strtod, content, o, depth, j);
      case Object(_) => ParseObjectText(strtod, content, o, depth, j);
      case _ =>
    }
  }

  lemma LeafText(j: Json)
    ensures j.Null? ==> Text(j) == NULL_TEXT
    ensures j.True? ==> Text(j) == TRUE_TEXT
    ensures j.False? ==> Text(j) == FALSE_TEXT
    ensures j.String? ==> Text(j) == Quoted(j.text)
  {}

  lemma LeafDepth(j: Json)
    ensures !j.Array? && !j.Object? ==> Depth(j) == 0
  {}

  lemma ItemsBegin(j: Json, n: nat)
    requires j.Array? && Printable(j)
    ensures ItemsText(j, n)[0] > 32 && (ItemsText(j, n)[0] == CLOSE_ARRAY <==> n >= |j.items|)
  {
    hide Text;
    if n < |j.items| {
      TextBegins(j.items[n]);
    }
  }

  lemma {:induction false} ParseArrayText(strtod: Strtod, content: seq<uint8>, o: nat, depth: nat, j: Json)
    requires ValidStrtod(strtod) && j.Array? && Printable(j) && IsAt(content, o, Text(j)) && depth <= NESTING_LIMIT
    ensures o < |content|
    ensures Expected(ParseArray(strtod, content, o, depth), j, depth + Depth(j), o + |Text(j)|)
    decreases j, 2, 0
  {
    hide ItemsText, ParseItems, ItemsDepth, IsAt, Skip;
    AtParts(content, o, [OPEN_ARRAY], ItemsText(j, 0));
    ItemsBegin(j, 0);
    AtVisible(content, o + 1, ItemsText(j, 0));
    if |j.items| == 0 {
      NoItems(j);
      assert j == Array([]);
    } else if depth < NESTING_LIMIT {
      ParseItemsText(strtod, content, o, depth + 1, j, 0, []);
    }
  }

  lemma NoItems(j: Json)
    ensures j.Array? && |j.items| == 0 ==> ItemsText(j, 0) == [CLOSE_ARRAY] && ItemsDepth(j, 0) == 0
    ensures j.Object? && |j.members| == 0 ==> MembersText(j, 0) == [CLOSE_OBJECT] && MembersDepth(j, 0) == 0
  {}

  /** A visible first byte is where skipping stops. */
  lemma AtVisible(content: seq<uint8>, o: nat, t: seq<uint8>)
    requires IsAt(content, o, t) && |t| > 0 && t[0] > 32
    ensures o < |content| && content[o] == t[0] && Skip(content, o) == o
  {
    AtByte(content, o, t);
    assert content[o + 0] == t[0];
  }

  /** Behind an item there is a comma and more, or the end of the array. */
  ghost function AfterItem(strtod: Strtod, content: seq<uint8>, e: nat, depth: nat, items: seq<Json>): Result
    requires ValidStrtod(strtod)
  {
    if e < |content| && content[e] == COMMA then ParseItems(strtod, content, e, depth, items)
    else if e < |content| && content[e] == CLOSE_ARRAY then Success(Array(items), e + 1)
    else Failure(e, depth)
  }

  lemma ItemsStep(strtod: Strtod, content: seq<uint8>, o: nat, depth: nat, items: seq<Json>, v: Result, e: nat)
    requires ValidStrtod(strtod) && o < |content| && v == ParseValue(strtod, content, Skip(content, o + 1), depth)
    requires v.Success? ==> e == Skip(content, v.next)
    ensures v.Success? ==> o < e
    ensures ParseItems(strtod, content, o, depth, items)
         == if v.Failure? then v else AfterItem(strtod, content, e, depth, items + [v.value])
  {
    hide ParseValue;
  }

  lemma ItemsTextStep(j: Json, n: nat)
    requires j.Array? && n < |j.items|
    ensures n + 1 < |j.items| ==> ItemsText(j, n) == Text(j.items[n]) + ([COMMA] + ItemsText(j, n + 1))
    ensures n + 1 == |j.items| ==> ItemsText(j, n) == Text(j.items[n]) + [CLOSE_ARRAY] && ItemsDepth(j, n + 1) == 0
    ensures ItemsDepth(j, n) == Max(Depth(j.items[n]), ItemsDepth(j, n + 1))
  {
    hide Text, Depth;
  }

  /** An item is appended, unless it is nested too deeply; behind it there is a comma or the end. */
  lemma {:induction false} ItemAppended(strtod: Strtod, content: seq<uint8>, o: nat, depth: nat, j: Json, n: nat,
                                        items: seq<Json>, behind: seq<uint8>, e: nat)
    requires ValidStrtod(strtod) && j.Array? && Printable(j) && n < |j.items| && depth <= NESTING_LIMIT
    requires o < |content| && IsAt(content, o + 1, ItemsText(j, n))
    requires behind == if n + 1 < |j.items| then [COMMA] + ItemsText(j, n + 1) else [CLOSE_ARRAY]
    requires e == o + 1 + |Text(j.items[n])|
    ensures e < |content| && content[e] == behind[0] && IsAt(content, e, behind)
    ensures e + |behind| == o + 1 + |ItemsText(j, n)|
    ensures if depth + Depth(j.items[n]) <= NESTING_LIMIT then
        ParseItems(strtod, content, o, depth, items) == AfterItem(strtod, content, e, depth, items + [j.items[n]])
      else ParseItems(strtod, content, o, depth, items).Failure?
    decreases j, 0, 1
  {
    hide Text, ItemsText, ParseValue, ParseItems, Depth, ItemsDepth, IsAt, Skip, Printable;
    var item := j.items[n];
    ItemsTextStep(j, n);
    ItemPrintable(j, n);
    TextBegins(item);
    AtParts(content, o + 1, Text(item), behind);
    AtVisible(content, o + 1, Text(item));
    ParseText(strtod, content, o + 1, depth, item);
    AtVisible(content, e, behind);
    ItemsStep(strtod, content, o, depth, items, ParseValue(strtod, content, o + 1, depth), e);
  }

  lemma {:induction false} ParseItemsText(strtod: Strtod, content: seq<uint8>, o: nat, depth: nat, j: Json, n: nat,
                                          items: seq<Json>)
    requires ValidStrtod(strtod) && j.Array? && Printable(j) && n < |j.items| && items == j.items[..n]
    requires o < |content| && IsAt(content, o + 1, ItemsText(j, n)) && depth <= NESTING_LIMIT
    ensures var next := o + 1 + |ItemsText(j, n)|;
      Expected(ParseItems(strtod, content, o, depth, items), j, depth + ItemsDepth(j, n), next)
    decreases j, 1, |j.items| - n
  {
    hide Text, ItemsText, ParseItems, Depth, ItemsDepth, IsAt, Printable;
    var item := j.items[n];
    var behind := if n + 1 < |j.items| then [COMMA] + ItemsText(j, n + 1) else [CLOSE_ARRAY];
    var e := o + 1 + |Text(item)|;
    ItemsTextStep(j, n);
    ItemAppended(strtod, content, o, depth, j, n, items, behind, e);
    assert j.items[..n + 1] == items + [item];
    if n + 1 < |j.items| {
      AtParts(content, e, [COMMA], ItemsText(j, n + 1));
      ParseItemsText(strtod, content, e, depth, j, n + 1, items + [item]);
    } else {
      assert j == Array(items + [item]);
    }
  }

  lemma ItemPrintable(j: Json, n: nat)
    requires Printable(j)
    ensures j.Array? && n < |j.items| ==> Printable(j.items[n])
    ensures j.Object? && n < |j.members| ==> Printable(j.members[n].value)
  {}

  lemma MembersBegin(j: Json, n: nat)
    requires j.Object?
    ensures MembersText(j, n)[0] > 32 && (MembersText(j, n)[0] == CLOSE_OBJECT <==> n >= |j.members|)
  {
    hide Text, Escaped;
  }

  lemma {:induction false} ParseObjectText(strtod: Strtod, content: seq<uint8>, o: nat, depth: nat, j: Json)
    requires ValidStrtod(strtod) && j.Object? && Printable(j) && IsAt(content, o, Text(j)) && depth <= NESTING_LIMIT
    ensures o < |content|
    ensures Expected(ParseObject(strtod, content, o, depth), j, depth + Depth(j), o + |Text(j)|)
    decreases j, 2, 0
  {
    hide MembersText, ParseMembers, MembersDepth, IsAt, Skip;
    AtParts(content, o, [OPEN_OBJECT], MembersText(j, 0));
    MembersBegin(j, 0);
    AtVisible(content, o + 1, MembersText(j, 0));
    if |j.members| == 0 {
      NoItems(j);
      assert j == Object([]);
    } else if depth < NESTING_LIMIT {
      ParseMembersText(strtod, content, o, depth + 1, j, 0, []);
    }
  }

  /** Behind a member there is a comma and more, or the end of the object. */
  ghost function AfterMember(strtod: Strtod, content: seq<uint8>, e: nat, depth: nat, members: seq<Member>): Result
    requires ValidStrtod(strtod)
  {
    if e < |content| && content[e] == COMMA then ParseMembers(strtod, content, e, depth, members)
    else if e < |content| && content[e] == CLOSE_OBJECT then Success(Object(members), e + 1)
    else Failure(e, depth)
  }

  lemma MembersStep(strtod: Strtod, content: seq<uint8>, o: nat, depth: nat, members: seq<Member>,
                    name: Quotation, c: nat, v: Result, e: nat)
    requires ValidStrtod(strtod) && o < |content|
    requires ParseString(content, Skip(content, o + 1)) == name && name.Quotation?
    requires c == Skip(content, name.next) < |content| && content[c] == COLON
    requires v == ParseValue(strtod, content, Skip(content, c + 1), depth)
    requires v.Success? ==> e == Skip(content, v.next)
    ensures v.Success? ==> o < e
    ensures ParseMembers(strtod, content, o, depth, members)
         == if v.Failure? then v else AfterMember(strtod, content, e, depth, members + [Member(name.bytes, v.value)])
  {
    hide ParseValue, ParseString, Skip;
  }

  /** Without a name or the colon behind it there is no member. */
  lemma MembersFail(strtod: Strtod, content: seq<uint8>, o: nat, depth: nat, members: seq<Member>)
    requires ValidStrtod(strtod) && o < |content|
    requires var name := ParseString(content, Skip(content, o + 1));
      name.Quotation? ==> var c := Skip(content, name.next); c >= |content| || content[c] != COLON
    ensures var name := ParseString(content, Skip(content, o + 1));
      ParseMembers(strtod, content, o, depth, members)
      == Failure(if name.Malformed? then name.at else Skip(content, name.next), depth)
  {
    hide ParseValue, ParseString, Skip;
  }

  lemma MembersTextStep(j: Json, n: nat)
    requires j.Object? && n < |j.members|
    ensures var m := j.members[n];
      var behind := if n + 1 < |j.members| then [COMMA] + MembersText(j, n + 1) else [CLOSE_OBJECT];
      MembersText(j, n) == Quoted(m.name) + ([COLON] + (Text(m.value) + behind))
    ensures n + 1 == |j.members| ==> MembersDepth(j, n + 1) == 0
    ensures MembersDepth(j, n) == Max(Depth(j.members[n].value), MembersDepth(j, n + 1))
  {
    hide Text, Quoted, Depth;
  }

  /** The name, the colon and the value of one member. */
  lemma {:induction false} MemberParsed(strtod: Strtod, content: seq<uint8>, o: nat, depth: nat, j: Json, n: nat,
                                        behind: seq<uint8>)
    requires ValidStrtod(strtod) && j.Object? && Printable(j) && n < |j.members| && depth <= NESTING_LIMIT
    requires |behind| > 0 && behind[0] > 32
    requires var m := j.members[n]; IsAt(content, o + 1, Quoted(m.name) + ([COLON] + (Text(m.value) + behind)))
    ensures var m := j.members[n];
      var c := o + 1 + |Quoted(m.name)|;
      var e := c + 1 + |Text(m.value)|;
      && e < |content|
      && ParseString(content, Skip(content, o + 1)) == Quotation(m.name, c)
      && Skip(content, c) == c && content[c] == COLON
      && Expected(ParseValue(strtod, content, Skip(content, c + 1), depth), m.value, depth + Depth(m.value), e)
      && IsAt(content, e, behind) && Skip(content, e) == e && content[e] == behind[0]
    decreases j, 0, 0
  {
    hide Text, ParseValue, ParseString, Depth, IsAt, Skip, Printable, Quoted, Expected;
    var m := j.members[n];
    ItemPrintable(j, n);
    TextBegins(m.value);
    var name, tail := Quoted(m.name), [COLON] + (Text(m.value) + behind);
    AtParts(content, o + 1, name, tail);
    QuotedBegins(m.name);
    AtVisible(content, o + 1, name);
    ParseQuoted(content, o + 1, m.name);
    var c := o + 1 + |name|;
    AtVisible(content, c, tail);
    AtParts(content, c, [COLON], Text(m.value) + behind);
    AtParts(content, c + 1, Text(m.value), behind);
    AtVisible(content, c + 1, Text(m.value));
    ParseText(strtod, content, c + 1, depth, m.value);
    AtVisible(content, c + 1 + |Text(m.value)|, behind);
  }

  /** A member is appended, unless its value is nested too deeply; behind it there is a comma or the end. */
  lemma {:induction false} MemberAppended(strtod: Strtod, content: seq<uint8>, o: nat, depth: nat, j: Json, n: nat,
                                          members: seq<Member>, behind: seq<uint8>, e: nat)
    requires ValidStrtod(strtod) && j.Object? && Printable(j) && n < |j.members| && depth <= NESTING_LIMIT
    requires o < |content| && IsAt(content, o + 1, MembersText(j, n))
    requires behind == if n + 1 < |j.members| then [COMMA] + MembersText(j, n + 1) else [CLOSE_OBJECT]
    requires e == o + 2 + |Quoted(j.members[n].name)| + |Text(j.members[n].value)|
    ensures e < |content| && content[e] == behind[0] && IsAt(content, e, behind)
    ensures e + |behind| == o + 1 + |MembersText(j, n)|
    ensures if depth + Depth(j.members[n].value) <= NESTING_LIMIT then
        ParseMembers(strtod, content, o, depth, members)
        == AfterMember(strtod, content, e, depth, members + [j.members[n]])
      else ParseMembers(strtod, content, o, depth, members).Failure?
    decreases j, 0, 1
  {
    hide Text, MembersText, ParseValue, ParseString, ParseMembers, Depth, MembersDepth, IsAt, Skip, Printable, Quoted;
    hide AfterMember;
    var m := j.members[n];
    MembersTextStep(j, n);
    MemberParsed(strtod, content, o, depth, j, n, behind);
    var c := o + 1 + |Quoted(m.name)|;
    var v := ParseValue(strtod, content, Skip(content, c + 1), depth);
    MembersStep(strtod, content, o, depth, members, Quotation(m.name, c), c, v, e);
    assert m == Member(m.name, m.value);
  }

  lemma {:induction false} ParseMembersText(strtod: Strtod, content: seq<uint8>, o: nat, depth: nat, j: Json, n: nat,
                                            members: seq<Member>)
    requires ValidStrtod(strtod) && j.Object? && Printable(j) && n < |j.members| && members == j.members[..n]
    requires o < |content| && IsAt(content, o + 1, MembersText(j, n)) && depth <= NESTING_LIMIT
    ensures var next := o + 1 + |MembersText(j, n)|;
      Expected(ParseMembers(strtod, content, o, depth, members), j, depth + MembersDepth(j, n), next)
    decreases j, 1, |j.members| - n
  {
    hide Text, MembersText, ParseMembers, Depth, MembersDepth, IsAt, Printable, Quoted;
    var m := j.members[n];
    var behind := if n + 1 < |j.members| then [COMMA] + MembersText(j, n + 1) else [CLOSE_OBJECT];
    var e := o + 2 + |Quoted(m.name)| + |Text(m.value)|;
    MembersTextStep(j, n);
    MemberAppended(strtod, content, o, depth, j, n, members, behind, e);
    assert j.members[..n + 1] == members + [m];
    if n + 1 < |j.members| {
      AtParts(content, e, [COMMA], MembersText(j, n + 1));
      ParseMembersText(strtod, content, e, depth, j, n + 1, members + [m]);
    } else {
      assert j == Object(members + [m]);
    }
  }

  lemma QuotedBegins(s: seq<uint8>)
    ensures |Quoted(s)| > 0 && Quoted(s)[0] == QUOTE
  {}

  /** A printed tree parses back to itself if and only if it is nested at most 1000 deep. */
  lemma RoundTrip(strtod: Strtod, j: Json, requireEnd: bool)
    requires ValidStrtod(strtod) && Printable(j)
    ensures var r := Parse(strtod, Text(j) + [0], requireEnd);
      if Depth(j) <= NESTING_LIMIT then r == Parsed(j, |Text(j)|) else r.Rejected?
  {
    hide Text, ParseValue, Depth;
    var content := Text(j) + [0];
    TextBegins(j);
    assert IsAt(content, 0, Text(j));
    AtVisible(content, 0, Text(j));
    ParseText(strtod, content, 0, 0, j);
    NotAt(content, 0, BOM);
    assert content[|Text(j)|] == 0;
    assert FirstVisible(content, |content|) == |content|;
  }
}
