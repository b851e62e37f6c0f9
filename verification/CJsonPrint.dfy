/** Printing JSON into a buffer that grows on demand; every text in it ends at a zero byte. */
module CJsonPrint {
  import opened Hex
  import opened ModArith
  import opened CJson
  import opened Wrappers

  const INT_MAX: nat := 0x7fff_ffff

  class PrintBuffer {
    var buffer: array<uint8>
    var offset: nat

    ghost predicate Valid()
      reads this
    {
      offset < buffer.Length <= INT_MAX
    }

    constructor (size: nat)
      requires 0 < size <= INT_MAX
      ensures Valid() && offset == 0 && buffer.Length == size && fresh(buffer)
    {
      buffer := new uint8[size];
      offset := 0;
    }

    /**
     * The printed text t starts at start and is followed by a zero byte; the offset is somewhere in it,
     * and nothing before it has changed.
     */
    ghost predicate Holds(before: seq<uint8>, t: seq<uint8>)
      reads this, buffer
    {
      && |before| <= offset <= |before| + |t| < buffer.Length
      && buffer[..|before| + |t|] == before + t
      && buffer[|before| + |t|] == 0
    }

    /** Makes room for needed bytes and one more behind the offset. */
    method Ensure(needed: nat) returns (ok: bool)
      requires Valid()
      modifies this`buffer
      ensures ok <==> offset + needed + 1 <= INT_MAX
      ensures ok ==> Valid() && offset + needed + 1 <= buffer.Length
      ensures ok ==> buffer[..offset] == old(buffer[..offset])
      ensures buffer == old(buffer) || fresh(buffer)
    {
      if needed > INT_MAX {
        return false;
      }
      var total := needed + offset + 1;
      if total <= buffer.Length {
        return true;
      }
      var newSize;
      if total > INT_MAX / 2 {
        if total <= INT_MAX {
          newSize := INT_MAX;
        } else {
          return false;
        }
      } else {
        newSize := total * 2;
      }
      var newBuffer := new uint8[newSize];
      forall i | 0 <= i < buffer.Length {
        newBuffer[i] := buffer[i];
      }
      buffer := newBuffer;
      ok := true;
    }

    /** Copies a string and its terminator to the offset, where there is room for them. */
    method StrCpy(t: seq<uint8>, ghost before: seq<uint8>)
      requires offset + |t| < buffer.Length && buffer[..offset] == before
      modifies buffer
      ensures Holds(before, t)
    {
      for i := 0 to |t|
        invariant buffer[..offset + i] == before + t[..i]
      {
        buffer[offset + i] := t[i];
      }
      buffer[offset + |t|] := 0;
    }

    /** Moves the offset to the next zero byte, which is the end of what was printed last. */
    method UpdateOffset(ghost before: seq<uint8>, ghost t: seq<uint8>)
      requires Valid() && Holds(before, t) && NulFreeString(t)
      modifies this`offset
      ensures Valid() && offset == |before| + |t| && buffer[..offset] == before + t && buffer[offset] == 0
    {
      while buffer[offset] != 0
        invariant Valid() && Holds(before, t)
        decreases |before| + |t| - offset
      {
        assert offset < |before| + |t|;
        offset := offset + 1;
      }
    }

    /** What escaping adds to the length. */
    method CountEscapes(s: seq<uint8>) returns (extra: nat)
      ensures |s| + extra == |Escaped(s)|
      ensures extra == 0 ==> Escaped(s) == s
    {
      hide Escaped;
      extra := 0;
      EscapedNothing();
      assert s[..0] == [];
      for i := 0 to |s|
        invariant i + extra == |Escaped(s[..i])|
        invariant extra == 0 ==> Escaped(s[..i]) == s[..i]
      {
        EscapedSnoc(s, i);
        assert s[..i + 1] == s[..i] + [s[i]];
        if ShortEscape(s[i]) != 0 {
          extra := extra + 1;
        } else if s[i] < 32 {
          extra := extra + 5;
        }
      }
      assert s[..|s|] == s;
    }

    /** Writes one character in escaped form; a hexadecimal escape also writes a zero byte behind itself. */
    method WriteEscaped(c: uint8, at: nat, ghost before: seq<uint8>) returns (next: nat)
      requires c != 0 && at + |EscapeChar(c)| < buffer.Length && buffer[..at] == before
      modifies buffer
      ensures next == at + |EscapeChar(c)| && buffer[..next] == before + EscapeChar(c)
    {
      if c > 31 && c != QUOTE && c != BACKSLASH {
        buffer[at] := c;
        return at + 1;
      }
      buffer[at] := BACKSLASH;
      if ShortEscape(c) != 0 {
        buffer[at + 1] := ShortEscape(c);
        return at + 2;
      }
      buffer[at + 1], buffer[at + 2], buffer[at + 3] := 117, 48, 48;
      buffer[at + 4], buffer[at + 5] := HexDigit(c / 16), HexDigit(c % 16);
      buffer[at + 6] := 0;
      next := at + 6;
    }

    /** A string in which nothing needs to be escaped. */
    method WritePlain(s: seq<uint8>, ghost before: seq<uint8>)
      requires offset + |s| + 2 < buffer.Length && buffer[..offset] == before
      modifies buffer
      ensures Holds(before, [QUOTE] + s + [QUOTE])
    {
      buffer[offset] := QUOTE;
      forall i | 0 <= i < |s| {
        buffer[offset + 1 + i] := s[i];
      }
      buffer[offset + |s| + 1] := QUOTE;
      buffer[offset + |s| + 2] := 0;
    }

    /** The escaped characters one after the other, from index start on. */
    method WriteCharacters(s: seq<uint8>, start: nat, ghost before: seq<uint8>) returns (at: nat)
      requires NulFreeString(s) && start + |Escaped(s)| < buffer.Length && buffer[..start] == before
      modifies buffer
      ensures at == start + |Escaped(s)| && buffer[..at] == before + Escaped(s)
    {
      hide Escaped, EscapeChar;
      at := start;
      EscapedNothing();
      assert s[..0] == [];
      for i := 0 to |s|
        invariant at == start + |Escaped(s[..i])| < buffer.Length
        invariant buffer[..at] == before + Escaped(s[..i])
      {
        EscapedSnoc(s, i);
        EscapedLonger(s, i + 1);
        at := WriteEscaped(s[i], at, before + Escaped(s[..i]));
      }
      assert s[..|s|] == s;
    }

    method PrintString(s: seq<uint8>, ghost before: seq<uint8>) returns (ok: bool)
      requires Valid() && NulFreeString(s) && buffer[..offset] == before
      modifies this`buffer, buffer
      ensures ok <==> |before| + |Quoted(s)| + 2 <= INT_MAX
      ensures ok ==> Valid() && Holds(before, Quoted(s)) && offset == old(offset)
      ensures buffer == old(buffer) || fresh(buffer)
    {
      hide Escaped, EscapeChar, Holds, NulFreeString;
      var extra := CountEscapes(s);
      var length := |s| + extra;
      ok := Ensure(length + 3);
      if !ok {
        return;
      }
      if extra == 0 {
        WritePlain(s, before);
        return;
      }
      WriteQuoted(s, before);
    }

    method WriteQuoted(s: seq<uint8>, ghost before: seq<uint8>)
      requires NulFreeString(s) && offset + |Escaped(s)| + 2 < buffer.Length && buffer[..offset] == before
      modifies buffer
      ensures Holds(before, Quoted(s))
    {
      hide Escaped, EscapeChar;
      buffer[offset] := QUOTE;
      var at := WriteCharacters(s, offset + 1, before + [QUOTE]);
      buffer[at], buffer[at + 1] := QUOTE, 0;
      assert buffer[..at] == before + [QUOTE] + Escaped(s);
    }

    /** Writes one byte and moves past it. */
    method Put(c: uint8, ghost before: seq<uint8>)
      requires Valid() && offset + 1 < buffer.Length && buffer[..offset] == before
      modifies this`offset, buffer
      ensures Valid() && offset == |before| + 1 && buffer[..offset] == before + [c]
    {
      buffer[offset] := c;
      offset := offset + 1;
    }

    /** Writes a comma with a terminator behind it, and moves past the comma. */
    method PutComma(ghost before: seq<uint8>)
      requires Valid() && offset + 1 < buffer.Length && buffer[..offset] == before
      modifies this`offset, buffer
      ensures Valid() && buffer[..offset] == before + [COMMA]
    {
      buffer[offset], buffer[offset + 1] := COMMA, 0;
      offset := offset + 1;
    }

    /** Writes the closing bracket and the terminator; the offset stays in front of them. */
    method Close(c: uint8, ghost before: seq<uint8>, ghost t: seq<uint8>)
      requires Valid() && offset + 1 < buffer.Length && buffer[..offset] + [c] == before + t && |before| <= offset
      modifies buffer
      ensures Valid() && Holds(before, t)
    {
      ghost var done := buffer[..offset];
      buffer[offset], buffer[offset + 1] := c, 0;
      assert buffer[..offset + 1] == done + [c];
    }

    method PrintLiteral(t: seq<uint8>, ghost before: seq<uint8>) returns (ok: bool)
      requires Valid() && buffer[..offset] == before
      modifies this`buffer, buffer
      ensures ok <==> |before| + |t| + 2 <= INT_MAX
      ensures ok ==> Valid() && Holds(before, t)
      ensures buffer == old(buffer) || fresh(buffer)
    {
      ok := Ensure(|t| + 1);
      if ok {
        StrCpy(t, before);
      }
    }

    /** Prints a value behind the offset; it fails exactly when the text outgrows the largest buffer. */
    method PrintValue(j: Json, ghost before: seq<uint8>) returns (ok: bool)
      requires Valid() && Printable(j) && buffer[..offset] == before
      modifies this`buffer, this`offset, buffer
      ensures ok <==> |before| + |Text(j)| + 2 <= INT_MAX
      ensures ok ==> Valid() && Holds(before, Text(j))
      ensures buffer == old(buffer) || fresh(buffer)
      decreases j, 1
    {
      hide Holds, Quoted, ItemsText, MembersText;
      match j {
        case Null => ok := PrintLiteral(NULL_TEXT, before);
        case False => ok := PrintLiteral(FALSE_TEXT, before);
        case True => ok := PrintLiteral(TRUE_TEXT, before);
        case String(s) => ok := PrintString(s, before);
        case Array(_) => ok := PrintArray(j, before);
        case Object(_) => ok := PrintObject(j, before);
      }
    }

    /** An element and the comma behind it; the offset ends up behind them. */
    method PrintElement(j: Json, i: nat, ghost before: seq<uint8>) returns (ok: bool)
      requires Valid() && Printable(j) && j.Array? && i < |j.items| && buffer[..offset] == before
      modifies this`buffer, this`offset, buffer
      ensures ok ==> Valid()
      ensures ok ==> buffer[..offset] == before + Text(j.items[i]) + (if i + 1 < |j.items| then [COMMA] else [])
      ensures !ok ==> |before| + |Text(j.items[i])| + (if i + 1 < |j.items| then 4 else 3) > INT_MAX
      ensures buffer == old(buffer) || fresh(buffer)
      decreases j, 0, 0
    {
      hide Holds, NulFreeString, Text;
      ghost var text := Text(j.items[i]);
      TextNulFree(j.items[i]);
      ok := PrintValue(j.items[i], before);
      if !ok {
        return;
      }
      UpdateOffset(before, text);
      if i + 1 < |j.items| {
        ok := Ensure(2);
        if !ok {
          return;
        }
        PutComma(before + text);
      }
    }

    method PrintArray(j: Json, ghost before: seq<uint8>) returns (ok: bool)
      requires Valid() && Printable(j) && j.Array? && buffer[..offset] == before
      modifies this`buffer, this`offset, buffer
      ensures ok <==> |before| + |Text(j)| + 2 <= INT_MAX
      ensures ok ==> Valid() && Holds(before, Text(j))
      ensures buffer == old(buffer) || fresh(buffer)
      decreases j, 0
    {
      hide Holds, NulFreeString;
      ghost var t := Text(j);
      ok := Ensure(1);
      if !ok {
        return;
      }
      Put(OPEN_ARRAY, before);
      for i := 0 to |j.items|
        invariant Valid() && (buffer == old(buffer) || fresh(buffer))
        invariant |before| < offset && buffer[..offset] + ItemsText(j, i) == before + t
      {
        ghost var done := buffer[..offset];
        ok := PrintElement(j, i, done);
        if !ok {
          return;
        }
        NextElement(done, Text(j.items[i]), if i + 1 < |j.items| then [COMMA] else [], ItemsText(j, i + 1));
      }
      ok := Ensure(2);
      if !ok {
        return;
      }
      Close(CLOSE_ARRAY, before, t);
    }

    /** The name, a colon, the value and a comma unless it is the last; the offset ends up behind them. */
    method PrintMember(j: Json, i: nat, ghost before: seq<uint8>) returns (ok: bool)
      requires Valid() && Printable(j) && j.Object? && i < |j.members| && buffer[..offset] == before
      modifies this`buffer, this`offset, buffer
      ensures ok ==> Valid()
      ensures ok ==>
        buffer[..offset] == before + MemberText(j.members[i]) + (if i + 1 < |j.members| then [COMMA] else [])
      ensures !ok ==> |before| + |MemberText(j.members[i])| + (if i + 1 < |j.members| then 4 else 3) > INT_MAX
      ensures buffer == old(buffer) || fresh(buffer)
      decreases j, 0, 0
    {
      hide Holds, NulFreeString, Quoted, Text;
      ghost var name, text := Quoted(j.members[i].name), Text(j.members[i].value);
      QuotedNulFree(j.members[i].name);
      TextNulFree(j.members[i].value);
      ok := PrintString(j.members[i].name, before);
      if !ok {
        return;
      }
      UpdateOffset(before, name);
      ok := Ensure(1);
      if !ok {
        return;
      }
      Put(COLON, before + name);
      ok := PrintValue(j.members[i].value, before + name + [COLON]);
      if !ok {
        return;
      }
      UpdateOffset(before + name + [COLON], text);
      NextElement(before, name, [COLON], text);
      ok := Ensure(if i + 1 < |j.members| then 2 else 1);
      if !ok {
        return;
      }
      if i + 1 < |j.members| {
        PutComma(before + MemberText(j.members[i]));
      } else {
        buffer[offset] := 0;
      }
    }

    method PrintObject(j: Json, ghost before: seq<uint8>) returns (ok: bool)
      requires Valid() && Printable(j) && j.Object? && buffer[..offset] == before
      modifies this`buffer, this`offset, buffer
      ensures ok <==> |before| + |Text(j)| + 2 <= INT_MAX
      ensures ok ==> Valid() && Holds(before, Text(j))
      ensures buffer == old(buffer) || fresh(buffer)
      decreases j, 0
    {
      hide Holds, NulFreeString, Quoted, MemberText;
      ghost var t := Text(j);
      ok := Ensure(2);
      if !ok {
        return;
      }
      Put(OPEN_OBJECT, before);
      for i := 0 to |j.members|
        invariant Valid() && (buffer == old(buffer) || fresh(buffer))
        invariant |before| < offset && buffer[..offset] + MembersText(j, i) == before + t
      {
        ghost var done := buffer[..offset];
        ok := PrintMember(j, i, done);
        if !ok {
          return;
        }
        NextElement(done, MemberText(j.members[i]), if i + 1 < |j.members| then [COMMA] else [], MembersText(j, i + 1));
      }
      ok := Ensure(2);
      if !ok {
        return;
      }
      Close(CLOSE_OBJECT, before, t);
    }
  }

  lemma NextElement(done: seq<uint8>, text: seq<uint8>, comma: seq<uint8>, rest: seq<uint8>)
    ensures done + text + comma + rest == done + (text + comma + rest)
  {}

  /** cJSON_PrintUnformatted: the text and its terminator, or nothing when no buffer can hold them. */
  method Print(j: Json) returns (printed: Option<seq<uint8>>)
    requires Printable(j)
    ensures printed == if |Text(j)| + 2 <= 0x7fff_ffff then Some(Text(j) + [0]) else None
  {
    hide Text;
    var p := new PrintBuffer(256);
    var ok := p.PrintValue(j, []);
    if !ok {
      return None;
    }
    TextNulFree(j);
    p.UpdateOffset([], Text(j));
    assert p.buffer[..p.offset + 1] == [] + Text(j) + [0] == Text(j) + [0];
    printed := Some(p.buffer[..p.offset + 1]);
  }

  lemma EscapedNothing()
    ensures Escaped([]) == []
  {}

  lemma EscapedLonger(s: seq<uint8>, i: nat)
    requires i <= |s|
    ensures |Escaped(s[..i])| <= |Escaped(s)|
  {
    EscapedConcat(s[..i], s[i..]);
    assert s[..i] + s[i..] == s;
  }
}
