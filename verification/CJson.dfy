/** JSON trees and their unformatted text. */
module CJson {
  import opened Hex
  import opened ModArith

  const QUOTE: uint8 := 34
  const BACKSLASH: uint8 := 92
  const COMMA: uint8 := 44
  const COLON: uint8 := 58
  const OPEN_ARRAY: uint8 := 91
  const CLOSE_ARRAY: uint8 := 93
  const OPEN_OBJECT: uint8 := 123
  const CLOSE_OBJECT: uint8 := 125

  const NULL_TEXT: seq<uint8> := [110, 117, 108, 108]
  const TRUE_TEXT: seq<uint8> := [116, 114, 117, 101]
  const FALSE_TEXT: seq<uint8> := [102, 97, 108, 115, 101]

  /** The subset of nodes printed here has no numbers; the parser can produce them. */
  datatype Json =
    | Null
    | True
    | False
    | Number(value: int)
    | String(text: seq<uint8>)
    | Array(items: seq<Json>)
    | Object(members: seq<Member>)

  datatype Member = Member(name: seq<uint8>, value: Json)

  /** C strings end at a zero byte, so they hold none. */
  predicate NulFreeString(s: seq<uint8>) {
    forall i :: 0 <= i < |s| ==> s[i] != 0
  }

  /** Trees that can be printed: no numbers, and strings without zero bytes. */
  ghost predicate Printable(j: Json)
    decreases j
  {
    match j
    case Number(_) => false
    case String(s) => NulFreeString(s)
    case Array(items) => forall i :: 0 <= i < |items| ==> Printable(items[i])
    case Object(members) =>
      forall i :: 0 <= i < |members| ==> NulFreeString(members[i].name) && Printable(members[i].value)
    case _ => true
  }

  /** How many arrays and objects are nested in each other. */
  ghost function Depth(j: Json): nat
    decreases j
  {
    match j
    case Array(items) => 1 + ItemsDepth(j, 0)
    case Object(members) => 1 + MembersDepth(j, 0)
    case _ => 0
  }

  function Max(a: nat, b: nat): nat {
    if a < b then b else a
  }

  ghost function ItemsDepth(j: Json, n: nat): nat
    requires j.Array?
    decreases j, |j.items| - n
  {
    if n >= |j.items| then 0 else Max(Depth(j.items[n]), ItemsDepth(j, n + 1))
  }

  ghost function MembersDepth(j: Json, n: nat): nat
    requires j.Object?
    decreases j, |j.members| - n
  {
    if n >= |j.members| then 0 else Max(Depth(j.members[n].value), MembersDepth(j, n + 1))
  }

  // -------------------------------------------------------------------- text

  /** The letter after the backslash in a two-character escape, or 0. */
  function ShortEscape(c: uint8): uint8 {
    if c == BACKSLASH || c == QUOTE then c
    else if c == 8 then 98
    else if c == 12 then 102
    else if c == 10 then 110
    else if c == 13 then 114
    else if c == 9 then 116
    else 0
  }

  function EscapeChar(c: uint8): (e: seq<uint8>)
    ensures 1 <= |e| <= 6
  {
    if c > 31 && c != QUOTE && c != BACKSLASH then [c]
    else if ShortEscape(c) != 0 then [BACKSLASH, ShortEscape(c)]
    else [BACKSLASH, 117, 48, 48, HexDigit(c / 16), HexDigit(c % 16)]
  }

  function Escaped(s: seq<uint8>): seq<uint8> {
    if s == [] then [] else EscapeChar(s[0]) + Escaped(s[1..])
  }

  function Quoted(s: seq<uint8>): seq<uint8> {
    [QUOTE] + Escaped(s) + [QUOTE]
  }

  function Text(j: Json): (t: seq<uint8>)
    decreases j
  {
    match j
    case Null => NULL_TEXT
    case True => TRUE_TEXT
    case False => FALSE_TEXT
    case Number(_) => []
    case String(s) => Quoted(s)
    case Array(_) => [OPEN_ARRAY] + ItemsText(j, 0)
    case Object(_) => [OPEN_OBJECT] + MembersText(j, 0)
  }

  /** The text from item n on, with the closing bracket. */
  function ItemsText(j: Json, n: nat): (t: seq<uint8>)
    requires j.Array?
    ensures t != []
    decreases j, |j.items| - n
  {
    if n >= |j.items| then [CLOSE_ARRAY]
    else Text(j.items[n]) + (if n + 1 < |j.items| then [COMMA] else []) + ItemsText(j, n + 1)
  }

  function MemberText(m: Member): (t: seq<uint8>)
    decreases m
  {
    Quoted(m.name) + [COLON] + Text(m.value)
  }

  /** The text from member n on, with the closing brace. */
  function MembersText(j: Json, n: nat): (t: seq<uint8>)
    requires j.Object?
    ensures t != []
    decreases j, |j.members| - n
  {
    if n >= |j.members| then [CLOSE_OBJECT]
    else
      MemberText(j.members[n]) + (if n + 1 < |j.members| then [COMMA] else []) + MembersText(j, n + 1)
  }

  lemma {:induction false} EscapedConcat(a: seq<uint8>, b: seq<uint8>)
    ensures Escaped(a + b) == Escaped(a) + Escaped(b)
  {
    hide EscapeChar;
    if a == [] {
      assert a + b == b;
    } else {
      assert (a + b)[1..] == a[1..] + b;
      EscapedConcat(a[1..], b);
    }
  }

  lemma EscapedSnoc(s: seq<uint8>, i: nat)
    requires i < |s|
    ensures Escaped(s[..i + 1]) == Escaped(s[..i]) + EscapeChar(s[i])
  {
    hide EscapeChar;
    EscapedConcat(s[..i], [s[i]]);
    assert s[..i + 1] == s[..i] + [s[i]];
    assert [s[i]][1..] == [];
  }

  // -------------------------------------------------------- no zero byte is printed

  lemma EscapeCharNulFree(c: uint8)
    requires c != 0
    ensures NulFreeString(EscapeChar(c))
  {}

  lemma NulFreeConcat(a: seq<uint8>, b: seq<uint8>)
    requires NulFreeString(a) && NulFreeString(b)
    ensures NulFreeString(a + b)
  {}

  lemma {:induction false} QuotedNulFree(s: seq<uint8>)
    requires NulFreeString(s)
    ensures NulFreeString(Escaped(s)) && NulFreeString(Quoted(s))
  {
    hide EscapeChar;
    if s != [] {
      EscapeCharNulFree(s[0]);
      QuotedNulFree(s[1..]);
      NulFreeConcat(EscapeChar(s[0]), Escaped(s[1..]));
    }
  }

  lemma {:induction false} TextNulFree(j: Json)
    requires Printable(j)
    ensures NulFreeString(Text(j))
    decreases j
  {
    hide Quoted;
    match j {
      case String(s) => QuotedNulFree(s);
      case Array(_) => ItemsNulFree(j, 0);
      case Object(_) => MembersNulFree(j, 0);
      case _ =>
    }
  }

  lemma {:induction false} ItemsNulFree(j: Json, n: nat)
    requires j.Array? && Printable(j)
    ensures NulFreeString(ItemsText(j, n))
    decreases j, |j.items| - n
  {
    hide Text;
    if n < |j.items| {
      TextNulFree(j.items[n]);
      ItemsNulFree(j, n + 1);
    }
  }

  lemma {:induction false} MembersNulFree(j: Json, n: nat)
    requires j.Object? && Printable(j)
    ensures NulFreeString(MembersText(j, n))
    decreases j, |j.members| - n
  {
    hide Text, Quoted;
    if n < |j.members| {
      QuotedNulFree(j.members[n].name);
      TextNulFree(j.members[n].value);
      MembersNulFree(j, n + 1);
    }
  }
}
