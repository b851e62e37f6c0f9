/** The JSON parser over a buffer with an offset, and the room it reserves for decoded strings. */
module CJsonParser {
  import opened ModArith
  import opened Wrappers
  import opened CJson
  import opened CJsonList
  import opened CJsonParse
  import opened CJsonTree
  import CJsonPrint

  // ------------------------------------------------ counting the escapes in a string

  /** marks tells which characters begin an escape. */
  function Count(marks: seq<bool>): (n: nat)
    ensures n <= |marks|
  {
    if marks == [] then 0 else Count(marks[..|marks| - 1]) + if marks[|marks| - 1] then 1 else 0
  }

  /** An escape covers two characters, so two neighbours never both begin one. */
  ghost predicate Separate(marks: seq<bool>) {
    forall i :: 0 <= i < |marks| - 1 ==> !(marks[i] && marks[i + 1])
  }

  /** Of k neighbouring characters at most half, rounded up, begin an escape. */
  lemma {:induction false} CountWindow(marks: seq<bool>, i: nat, k: nat)
    requires Separate(marks) && i + k <= |marks|
    ensures 2 * Count(marks[..i + k]) <= 2 * Count(marks[..i]) + k + 1
    ensures k > 0 && !marks[i + k - 1] ==> 2 * Count(marks[..i + k]) <= 2 * Count(marks[..i]) + k
  {
    if k > 0 {
      CountWindow(marks, i, k - 1);
      CountNext(marks, i + k - 1);
    }
  }

  lemma CountNext(marks: seq<bool>, i: nat)
    requires i < |marks|
    ensures Count(marks[..i + 1]) == Count(marks[..i]) + if marks[i] then 1 else 0
  {
    assert marks[..i + 1][..i] == marks[..i];
  }

  /** The room left over never shrinks. */
  lemma {:induction false} RoomGrows(marks: seq<bool>, i: nat)
    requires i <= |marks|
    ensures i - Count(marks[..i]) <= |marks| - Count(marks)
    decreases |marks| - i
  {
    if i == |marks| {
      assert marks[..i] == marks;
    } else {
      CountNext(marks, i);
      RoomGrows(marks, i + 1);
    }
  }

  lemma CountAppend(marks: seq<bool>)
    ensures Count(marks + [false]) == Count(marks)
    ensures Count(marks + [true, false]) == Count(marks) + 1
  {
    assert (marks + [false])[..|marks|] == marks;
    var m := marks + [true, false];
    assert m[..|marks| + 1] == marks + [true];
    assert (marks + [true])[..|marks|] == marks;
  }

  lemma PrependTwice(a: seq<uint8>, b: seq<uint8>, r: Option<seq<uint8>>)
    ensures Prepend(a, Prepend(b, r)) == Prepend(a + b, r)
  {
    if r.Some? {
      assert a + (b + r.value) == a + b + r.value;
    }
  }

  lemma FirstVisibleIs(content: seq<uint8>, o: nat, p: nat)
    requires o <= p <= |content| && (forall i :: o <= i < p ==> content[i] <= 32) && (p < |content| ==> content[p] > 32)
    ensures FirstVisible(content, o) == p
  {}

  class ParseBuffer {
    const content: seq<uint8>
    var offset: nat
    var depth: nat

    constructor (content: seq<uint8>)
      ensures this.content == content && offset == 0 && depth == 0
    {
      this.content, offset, depth := content, 0, 0;
    }

    method SkipWhitespace()
      requires offset <= |content|
      modifies this`offset
      ensures offset == Skip(content, old(offset))
    {
      if offset >= |content| {
        return;
      }
      while offset < |content| && content[offset] <= 32
        invariant old(offset) <= offset <= |content| && forall i :: old(offset) <= i < offset ==> content[i] <= 32
      {
        offset := offset + 1;
      }
      FirstVisibleIs(content, old(offset), offset);
      if offset == |content| {
        offset := offset - 1;
      }
    }

    /** The closing quote, and the number of escapes before it. */
    method FindEnd(start: nat) returns (found: bool, end: nat, skipped: nat, ghost marks: seq<bool>)
      requires start <= |content|
      ensures found <==> StringEnd(content, start).Some?
      ensures found ==>
        && StringEnd(content, start) == Some(end) && skipped == Count(marks)
        && |marks| == end - start && Separate(marks) && (marks != [] ==> !marks[|marks| - 1])
        && forall i :: 0 <= i < |marks| && marks[i] ==> content[start + i] == BACKSLASH
    {
      hide Count;
      end, skipped, marks := start, 0, [];
      CountNothing();
      while end < |content| && content[end] != QUOTE
        invariant start <= end <= |content| && |marks| == end - start
        invariant StringEnd(content, start) == StringEnd(content, end)
        invariant skipped == Count(marks) && Separate(marks) && (marks != [] ==> !marks[|marks| - 1])
        invariant forall i :: 0 <= i < |marks| && marks[i] ==> content[start + i] == BACKSLASH
      {
        CountAppend(marks);
        if content[end] == BACKSLASH {
          if end + 1 >= |content| {
            return false, end, skipped, marks;
          }
          skipped := skipped + 1;
          end := end + 2;
          marks := marks + [true, false];
        } else {
          end := end + 1;
          marks := marks + [false];
        }
      }
      found := end < |content|;
    }

    /** One character or escape of a string: what it stands for is written, and the next position returned. */
    method DecodeOne(p: nat, end: nat, output: array<uint8>, at: nat) returns (ok: bool, next: nat, after: nat)
      requires p < end < |content| && at <= output.Length
      requires content[p] != BACKSLASH ==> at < output.Length
      requires content[p] == BACKSLASH && content[p + 1] != 117 ==> at < output.Length
      requires content[p] == BACKSLASH && content[p + 1] == 117 && Utf16(content, p, end).Some? ==>
        at + |Utf8(Utf16(content, p, end).value.codepoint)| <= output.Length
      modifies output
      ensures !ok ==> Unescape(content, p, end).None? && FirstBad(content, p, end) == p
      ensures ok ==> p < next && at <= after <= output.Length && output[..at] == old(output[..at])
      ensures ok ==> Unescape(content, p, end) == Prepend(output[at..after], Unescape(content, next, end))
      ensures ok ==> FirstBad(content, p, end) == FirstBad(content, next, end)
      ensures ok ==> StepSize(content, p, end, next - p, after - at)
    {
      hide Utf16, Utf8;
      if content[p] != BACKSLASH {
        output[at] := content[p];
        assert output[at..at + 1] == [content[p]];
        return true, p + 1, at + 1;
      }
      if content[p + 1] == 117 {
        var literal := Utf16(content, p, end);
        if literal.None? {
          return false, p, at;
        }
        after := WriteUtf8(literal.value.codepoint, output, at);
        assert output[at..after] == output[..after][at..] == Utf8(literal.value.codepoint);
        return true, p + literal.value.length, after;
      }
      var c := ShortMeaning(content[p + 1]);
      if c.None? {
        return false, p, at;
      }
      output[at] := c.value;
      assert output[at..at + 1] == [c.value];
      return true, p + 2, at + 1;
    }

    /** Decodes a string into a buffer of the size that the source computes. */
    method DecodeString(start: nat, end: nat, skipped: nat, ghost marks: seq<bool>)
      returns (ok: bool, s: seq<uint8>, stop: nat)
      requires 0 < start <= end < |content| && content[end] == QUOTE
      requires skipped == Count(marks) && |marks| == end - start
      requires Separate(marks) && (marks != [] ==> !marks[|marks| - 1])
      requires forall i :: 0 <= i < |marks| && marks[i] ==> content[start + i] == BACKSLASH
      ensures ok <==> Unescape(content, start, end).Some?
      ensures ok ==> Unescape(content, start, end) == Some(s)
      ensures !ok ==> stop == FirstBad(content, start, end)
    {
      hide Utf16, Utf8, Unescape, FirstBad, ShortMeaning, Count, Separate;
      // the source measures from the opening quote
      var allocationLength := end - (start - 1) - skipped;
      var output := new uint8[allocationLength + 1];
      var p, at := start, 0;
      CountNothing();
      assert marks[..0] == [];
      PrependNothing(Unescape(content, start, end));
      assert output[..0] == [];
      while p < end
        invariant start <= p && at < allocationLength
        invariant p <= end ==> at + Count(marks[..p - start]) <= p - start
        invariant Unescape(content, start, end) == Prepend(output[..at], Unescape(content, p, end))
        invariant FirstBad(content, start, end) == FirstBad(content, p, end)
        decreases end - p
      {
        ghost var done := output[..at];
        RoomForOne(content, marks, start, end, p, at);
        var next, after;
        ok, next, after := DecodeOne(p, end, output, at);
        if !ok {
          return false, [], p;
        }
        Room(content, marks, start, end, p, next - p, at, after - at);
        assert output[..after] == done + output[at..after];
        PrependTwice(done, output[at..after], Unescape(content, next, end));
        p, at := next, after;
      }
      output[at] := 0;
      UnescapeDone(content, p, end);
      ok, s, stop := true, output[..at], p;
    }

    /** A name may begin behind the last byte: one byte more is read, and the string fails whatever it is. */
    method ParseString() returns (ok: bool, s: seq<uint8>)
      requires offset <= |content|
      modifies this`offset
      ensures CJsonParse.ParseString(content, old(offset)) == if ok then Quotation(s, offset) else Malformed(offset)
    {
      hide Unescape, FirstBad, StringEnd, Separate, Count;
      s := [];
      if offset >= |content| || content[offset] != QUOTE {
        offset := offset + 1;
        return false, s;
      }
      var found, end, skipped;
      ghost var marks;
      found, end, skipped, marks := FindEnd(offset + 1);
      if !found {
        offset := offset + 1;
        return false, s;
      }
      var stop;
      ok, s, stop := DecodeString(offset + 1, end, skipped, marks);
      offset := if ok then end + 1 else stop;
    }

    method ParseNumber(strtod: Strtod) returns (ok: bool, number: int)
      requires ValidStrtod(strtod) && offset < |content|
      modifies this`offset
      ensures CJsonParse.ParseNumber(strtod, content, old(offset), depth)
           == if ok then Success(Number(number), offset) else Failure(offset, depth)
    {
      hide NumberText, NumberCharacter;
      var text: seq<uint8> := [];
      var i := 0;
      while i < 63 && offset + i < |content| && NumberCharacter(content[offset + i])
        invariant offset == old(offset) && i <= 63 && offset + i <= |content|
        invariant text + NumberText(content, offset + i, 63 - i) == NumberText(content, offset, 63)
        decreases 63 - i
      {
        NumberTextStep(content, offset + i, 63 - i);
        assert text + ([content[offset + i]] + NumberText(content, offset + i + 1, 62 - i))
            == text + [content[offset + i]] + NumberText(content, offset + i + 1, 62 - i);
        text := text + [content[offset + i]];
        i := i + 1;
      }
      NumberTextEnd(content, offset + i, 63 - i);
      assert text + [] == text;
      assert text == NumberText(content, offset, 63);
      var converted := strtod(text);
      var used := converted.1;
      number := converted.0;
      ok := used != 0;
      if ok {
        offset := offset + used;
      }
    }

    method Literal(t: seq<uint8>) returns (found: bool)
      requires offset <= |content|
      ensures found <==> IsAt(content, offset, t)
    {
      found := offset + |t| <= |content| && content[offset..offset + |t|] == t;
    }

    /** Sets the item to the value, with what hangs on it; an item that is new has no children. */
    method ParseValue(strtod: Strtod, item: Item) returns (ok: bool, ghost value: Json, ghost sh: Shape)
      requires ValidStrtod(strtod) && offset <= |content| && item.child == null
      modifies this`offset, this`depth, item`child, item`content
      ensures CJsonParse.ParseValue(strtod, content, old(offset), old(depth))
           == if ok then Success(value, offset) else Failure(offset, depth)
      ensures ok ==> depth == old(depth) && Built(item, sh, value) && forall x :: x in Inner(sh) ==> fresh(x)
      ensures item.content.name == old(item.content.name)
      decreases |content| - offset, 4
    {
      hide CJsonParse.ParseString, CJsonParse.ParseNumber, CJsonParse.ParseArray, CJsonParse.ParseObject, IsAt;
      hide ArrayTree, ObjectTree;
      ok, value, sh := true, Null, Shape(item, []);
      var found := Literal(NULL_TEXT);
      if found {
        item.content := item.content.(kind := NullKind);
        offset := offset + 4;
        return;
      }
      found := Literal(FALSE_TEXT);
      if found {
        item.content := item.content.(kind := FalseKind);
        offset := offset + 5;
        return true, False, sh;
      }
      found := Literal(TRUE_TEXT);
      if found {
        item.content := item.content.(kind := TrueKind);
        offset := offset + 4;
        return true, True, sh;
      }
      if offset < |content| && content[offset] == QUOTE {
        var s;
        ok, s := ParseString();
        if ok {
          item.content := item.content.(kind := StringKind, text := s);
        }
        return ok, String(s), sh;
      }
      if offset < |content| && (content[offset] == 45 || 48 <= content[offset] <= 57) {
        var number;
        ok, number := ParseNumber(strtod);
        if ok {
          item.content := item.content.(kind := NumberKind, number := number);
        }
        return ok, Number(number), sh;
      }
      if offset < |content| && content[offset] == OPEN_ARRAY {
        ok, value, sh := ParseArray(strtod, item);
        return;
      }
      if offset < |content| && content[offset] == OPEN_OBJECT {
        ok, value, sh := ParseObject(strtod, item);
        return;
      }
      ok := false;
    }

    method ParseArray(strtod: Strtod, item: Item) returns (ok: bool, ghost value: Json, ghost sh: Shape)
      requires ValidStrtod(strtod) && offset < |content| && content[offset] == OPEN_ARRAY
      modifies this`offset, this`depth, item`child, item`content
      ensures CJsonParse.ParseArray(strtod, content, old(offset), old(depth))
           == if ok then Success(value, offset) else Failure(offset, depth)
      ensures ok ==> depth == old(depth) && Built(item, sh, value) && forall x :: x in Inner(sh) ==> fresh(x)
      ensures item.content.name == old(item.content.name)
      decreases |content| - offset, 3
    {
      hide ParseItems, Skip, Building, Inner, Owned, Built;
      value, sh := Null, Shape(item, []);
      if depth >= NESTING_LIMIT {
        return false, value, sh;
      }
      depth := depth + 1;
      offset := offset + 1;
      SkipWhitespace();
      var head: Item?, current: Item? := null, null;
      ghost var kids: seq<Shape>, values: seq<Json> := [], [];
      if offset < |content| && content[offset] == CLOSE_ARRAY {
        depth := depth - 1;
        offset := offset + 1;
        NothingYet(kids, values, []);
        AdoptItems(item, head, current, kids, values);
        return true, Array([]), Shape(item, kids);
      }
      if offset >= |content| {
        offset := offset - 1;
        return false, value, sh;
      }
      offset := offset - 1;
      ok, head, current, kids, values := ParseElements(strtod);
      if !ok {
        return;
      }
      InOwned(head, current, kids, values);
      depth := depth - 1;
      offset := offset + 1;
      AdoptItems(item, head, current, kids, values);
      return true, Array(values), Shape(item, kids);
    }

    /** The loop over the elements, up to the closing bracket. */
    method ParseElements(strtod: Strtod)
      returns (ok: bool, head: Item?, current: Item?, ghost kids: seq<Shape>, ghost values: seq<Json>)
      requires ValidStrtod(strtod) && offset < |content|
      modifies this`offset, this`depth
      ensures ParseItems(strtod, content, old(offset), old(depth), [])
           == if ok then Success(Array(values), offset + 1) else Failure(offset, depth)
      ensures ok ==> offset < |content| && depth == old(depth)
      ensures ok ==> Building(head, current, kids, values) && forall x :: x in Owned(kids) ==> fresh(x)
      decreases |content| - offset, 2
    {
      hide CJsonParse.ParseValue, ParseItems, Skip, Building, Owned;
      head, current, kids, values := null, null, [], [];
      NothingYet(kids, values, []);
      while true
        invariant old(offset) <= offset < |content| && depth == old(depth)
        invariant ParseItems(strtod, content, offset, depth, values)
               == ParseItems(strtod, content, old(offset), old(depth), [])
        invariant Building(head, current, kids, values) && forall x :: x in Owned(kids) ==> fresh(x)
        decreases |content| - offset
      {
        ghost var o, before := offset, values;
        ghost var v := CJsonParse.ParseValue(strtod, content, Skip(content, o + 1), depth);
        InOwned(head, current, kids, values);
        ok, head, current, kids, values := NextItem(strtod, head, current, kids, values);
        ItemsStep(strtod, content, o, old(depth), before, v, offset);
        if !ok {
          return;
        }
        if !(offset < |content| && content[offset] == COMMA) {
          break;
        }
      }
      ok := offset < |content| && content[offset] == CLOSE_ARRAY;
    }

    /** A new item at the end of the list, and the value that it is set to. */
    method NextItem(strtod: Strtod, head: Item?, current: Item?, ghost kids: seq<Shape>, ghost values: seq<Json>)
      returns (ok: bool, head': Item?, current': Item?, ghost kids': seq<Shape>, ghost values': seq<Json>)
      requires ValidStrtod(strtod) && offset < |content| && Building(head, current, kids, values)
      modifies this`offset, this`depth, Target(current)`next
      ensures var v := CJsonParse.ParseValue(strtod, content, Skip(content, old(offset) + 1), old(depth));
        if ok then v.Success? && values' == values + [v.value] && offset == Skip(content, v.next) && depth == old(depth)
        else v == Failure(offset, depth)
      ensures ok ==> Building(head', current', kids', values')
      ensures ok ==> forall x :: x in Owned(kids') ==> x in Owned(kids) || fresh(x)
      decreases |content| - offset, 1
    {
      hide CJsonParse.ParseValue, Skip, Tree, Chain, Forest, Apart, Inner, Inners, Roots;
      assert allocated(Owned(kids));
      head', current' := Attach(head, current, kids, values);
      ghost var j, kid;
      ok, j, kid := ParseElement(strtod, current');
      kids', values' := kids + [kid], values + [j];
      if ok {
        KidBuilt(kids, values, kid, j);
      }
    }

    /** One value; the offset ends up at what comes behind it. */
    method ParseElement(strtod: Strtod, item: Item) returns (ok: bool, ghost j: Json, ghost kid: Shape)
      requires ValidStrtod(strtod) && offset < |content| && item.child == null
      modifies this`offset, this`depth, item`child, item`content
      ensures var v := CJsonParse.ParseValue(strtod, content, Skip(content, old(offset) + 1), old(depth));
        if ok then v.Success? && j == v.value && offset == Skip(content, v.next) && depth == old(depth)
        else v == Failure(offset, depth)
      ensures ok ==> Built(item, kid, j) && forall x :: x in Inner(kid) ==> fresh(x)
      decreases |content| - offset, 0
    {
      hide CJsonParse.ParseValue, Skip, Built, Inner;
      offset := offset + 1;
      SkipWhitespace();
      ok, j, kid := ParseValue(strtod, item);
      assert allocated(Inner(kid));
      if ok {
        SkipWhitespace();
      }
    }

    method ParseObject(strtod: Strtod, item: Item) returns (ok: bool, ghost value: Json, ghost sh: Shape)
      requires ValidStrtod(strtod) && offset < |content| && content[offset] == OPEN_OBJECT
      modifies this`offset, this`depth, item`child, item`content
      ensures CJsonParse.ParseObject(strtod, content, old(offset), old(depth))
           == if ok then Success(value, offset) else Failure(offset, depth)
      ensures ok ==> depth == old(depth) && Built(item, sh, value) && forall x :: x in Inner(sh) ==> fresh(x)
      ensures item.content.name == old(item.content.name)
      decreases |content| - offset, 3
    {
      hide ParseMembers, Skip, Building, Inner, Owned, Built, NamesAre, ValuesOf;
      value, sh := Null, Shape(item, []);
      if depth >= NESTING_LIMIT {
        return false, value, sh;
      }
      depth := depth + 1;
      offset := offset + 1;
      SkipWhitespace();
      var head: Item?, current: Item? := null, null;
      ghost var kids: seq<Shape>, members: seq<Member> := [], [];
      if offset < |content| && content[offset] == CLOSE_OBJECT {
        depth := depth - 1;
        offset := offset + 1;
        NothingYet(kids, [], members);
        AdoptMembers(item, head, current, kids, members);
        return true, Object([]), Shape(item, kids);
      }
      if offset >= |content| {
        offset := offset - 1;
        return false, value, sh;
      }
      offset := offset - 1;
      ok, head, current, kids, members := ParsePairs(strtod);
      if !ok {
        return;
      }
      InOwned(head, current, kids, ValuesOf(members));
      depth := depth - 1;
      offset := offset + 1;
      AdoptMembers(item, head, current, kids, members);
      return true, Object(members), Shape(item, kids);
    }

    /** The loop over the members, up to the closing brace. */
    method ParsePairs(strtod: Strtod)
      returns (ok: bool, head: Item?, current: Item?, ghost kids: seq<Shape>, ghost members: seq<Member>)
      requires ValidStrtod(strtod) && offset < |content|
      modifies this`offset, this`depth
      ensures ParseMembers(strtod, content, old(offset), old(depth), [])
           == if ok then Success(Object(members), offset + 1) else Failure(offset, depth)
      ensures ok ==> offset < |content| && depth == old(depth)
      ensures ok ==> Building(head, current, kids, ValuesOf(members)) && NamesAre(kids, members)
      ensures ok ==> forall x :: x in Owned(kids) ==> fresh(x)
      decreases |content| - offset, 2
    {
      hide ParseMembers, Skip, Building, Owned, NamesAre, ValuesOf;
      head, current, kids, members := null, null, [], [];
      NothingYet(kids, [], members);
      while true
        invariant old(offset) <= offset < |content| && depth == old(depth)
        invariant ParseMembers(strtod, content, offset, depth, members)
               == ParseMembers(strtod, content, old(offset), old(depth), [])
        invariant Building(head, current, kids, ValuesOf(members)) && NamesAre(kids, members)
        invariant forall x :: x in Owned(kids) ==> fresh(x)
        decreases |content| - offset
      {
        InOwned(head, current, kids, ValuesOf(members));
        ok, head, current, kids, members := NextMember(strtod, head, current, kids, members);
        if !ok {
          return;
        }
        if !(offset < |content| && content[offset] == COMMA) {
          break;
        }
      }
      ok := offset < |content| && content[offset] == CLOSE_OBJECT;
    }

    /** A new item at the end of the list, and the member that it is set to. */
    method NextMember(strtod: Strtod, head: Item?, current: Item?, ghost kids: seq<Shape>, ghost members: seq<Member>)
      returns (ok: bool, head': Item?, current': Item?, ghost kids': seq<Shape>, ghost members': seq<Member>)
      requires ValidStrtod(strtod) && offset < |content|
      requires Building(head, current, kids, ValuesOf(members)) && NamesAre(kids, members)
      modifies this`offset, this`depth, Target(current)`next
      ensures !ok ==> ParseMembers(strtod, content, old(offset), old(depth), members) == Failure(offset, depth)
      ensures ok ==> old(offset) < offset <= |content| && depth == old(depth)
      ensures ok ==>
        ParseMembers(strtod, content, old(offset), old(depth), members)
        == AfterMember(strtod, content, offset, depth, members')
      ensures ok ==> Building(head', current', kids', ValuesOf(members')) && NamesAre(kids', members')
      ensures ok ==> forall x :: x in Owned(kids') ==> x in Owned(kids) || fresh(x)
      decreases |content| - offset, 1
    {
      hide ParseMembers, Skip, Tree, Chain, Forest, Apart, Inner, Inners, NamesAre, Roots;
      assert allocated(Owned(kids));
      head', current' := Attach(head, current, kids, ValuesOf(members));
      ghost var member, kid;
      ok, member, kid := ParseMember(strtod, members, current');
      kids', members' := kids + [kid], members + [member];
      if ok {
        KidBuilt(kids, ValuesOf(members), kid, member.value);
        MemberNamed(kids, members, kid, member);
      }
    }

    /** One name, colon and value; the offset ends up at what comes behind them. */
    method ParseMember(strtod: Strtod, ghost members: seq<Member>, item: Item)
      returns (ok: bool, ghost member: Member, ghost kid: Shape)
      requires ValidStrtod(strtod) && offset < |content| && item.child == null
      modifies this`offset, this`depth, item`child, item`content
      ensures !ok ==> ParseMembers(strtod, content, old(offset), old(depth), members) == Failure(offset, depth)
      ensures ok ==> old(offset) < offset <= |content| && depth == old(depth)
      ensures ok ==>
        ParseMembers(strtod, content, old(offset), old(depth), members)
        == AfterMember(strtod, content, offset, depth, members + [member])
      ensures ok ==> Built(item, kid, member.value) && item.content.name == member.name
      ensures ok ==> forall x :: x in Inner(kid) ==> fresh(x)
      decreases |content| - offset, 0
    {
      hide CJsonParse.ParseValue, CJsonParse.ParseString, ParseMembers, Skip, Built, Inner;
      ghost var o, depth0 := offset, depth;
      member, kid := Member([], Null), Shape(item, []);
      offset := offset + 1;
      SkipWhitespace();
      var name;
      ok, name := ParseString();
      ghost var behind := offset;
      if ok {
        SkipWhitespace();
      }
      if !ok || offset >= |content| || content[offset] != COLON {
        MembersFail(strtod, content, o, depth, members);
        return false, member, kid;
      }
      // what was parsed is the name, not the string of the item
      item.content := item.content.(name := name);
      ghost var c := offset;
      offset := offset + 1;
      SkipWhitespace();
      ghost var j;
      ok, j, kid := ParseValue(strtod, item);
      assert allocated(Inner(kid));
      ghost var v := if ok then Success(j, offset) else Failure(offset, depth);
      if ok {
        SkipWhitespace();
      }
      MembersStep(strtod, content, o, depth0, members, Quotation(name, behind), c, v, offset);
      member := Member(name, j);
    }
  }

  lemma NumberTextEnd(content: seq<uint8>, o: nat, n: nat)
    requires o <= |content| && (n == 0 || o == |content| || !NumberCharacter(content[o]))
    ensures NumberText(content, o, n) == []
  {}

  lemma NumberTextStep(content: seq<uint8>, o: nat, n: nat)
    requires o < |content| && n > 0 && NumberCharacter(content[o])
    ensures NumberText(content, o, n) == [content[o]] + NumberText(content, o + 1, n - 1)
  {}

  /** cJSON_ParseWithLengthOpts: a new item with the tree and the end that is reported, or the position of the error. */
  method Parse(strtod: Strtod, content: seq<uint8>, requireEnd: bool)
    returns (item: Item?, position: nat, ghost value: Json, ghost sh: Shape)
    requires ValidStrtod(strtod)
    ensures CJsonParse.Parse(strtod, content, requireEnd)
         == if item != null then Parsed(value, position) else Rejected(position)
    ensures item != null ==> fresh(item) && fresh(Inner(sh)) && Built(item, sh, value)
  {
    hide CJsonParse.ParseValue, Skip, Tree, Inner;
    var buffer := new ParseBuffer(content);
    var root := new Item(BLANK);
    if 4 < |content| && IsAt(content, 0, BOM) {
      buffer.offset := buffer.offset + 3;
    }
    buffer.SkipWhitespace();
    var ok;
    ok, value, sh := buffer.ParseValue(strtod, root);
    assert allocated(Inner(sh));
    if ok && requireEnd {
      buffer.SkipWhitespace();
      ok := buffer.offset < |content| && content[buffer.offset] == 0;
    }
    if !ok {
      return null, ErrorAt(content, buffer.offset), value, sh;
    }
    return root, buffer.offset, value, sh;
  }

  /** Printing and parsing again: new items that stand for the value, exactly when it is not nested too deeply. */
  method PrintThenParse(strtod: Strtod, j: Json, requireEnd: bool)
    returns (text: Option<seq<uint8>>, item: Item?, ghost sh: Shape)
    requires ValidStrtod(strtod) && Printable(j)
    ensures text == if |Text(j)| + 2 <= CJsonPrint.INT_MAX then Some(Text(j) + [0]) else None
    ensures text.Some? ==> (item != null <==> Depth(j) <= NESTING_LIMIT)
    ensures text.Some? && item != null ==> fresh(item) && Built(item, sh, j)
  {
    hide Text, Depth, CJsonParse.Parse, Built;
    text := CJsonPrint.Print(j);
    var blank := new Item(BLANK);
    item, sh := null, Shape(blank, []);
    if text.Some? {
      RoundTrip(strtod, j, requireEnd);
      var position;
      ghost var value;
      item, position, value, sh := Parse(strtod, text.value, requireEnd);
    }
  }

  /** How many bytes an escape may produce, by the number of characters it covers. */
  ghost predicate StepSize(content: seq<uint8>, p: nat, end: nat, length: nat, bytes: nat)
    requires p < |content|
  {
    || (length == 1 && bytes == 1 && content[p] != BACKSLASH)
    || (length == 2 && bytes == 1)
    || (length == 6 && bytes <= 3 && p + 6 <= end)
    || (length == 12 && bytes <= 4 && p + 12 <= end)
  }

  lemma PrependNothing(r: Option<seq<uint8>>)
    ensures Prepend([], r) == r
  {
    if r.Some? {
      assert [] + r.value == r.value;
    }
  }

  lemma UnescapeDone(content: seq<uint8>, p: nat, end: nat)
    requires end < |content| && p >= end
    ensures Unescape(content, p, end) == Some([])
    ensures forall a: seq<uint8> :: Prepend(a, Some([])) == Some(a)
  {
    forall a: seq<uint8>
      ensures Prepend(a, Some([])) == Some(a)
    {
      assert a + [] == a;
    }
  }

  /** Before an escape is decoded there is room for everything it can produce. */
  lemma RoomForOne(content: seq<uint8>, marks: seq<bool>, start: nat, end: nat, p: nat, at: nat)
    requires start <= p < end < |content| && |marks| == end - start && Separate(marks)
    requires at + Count(marks[..p - start]) <= p - start
    ensures at < end - start + 1 - Count(marks)
    ensures Utf16(content, p, end).Some? ==>
      at + |Utf8(Utf16(content, p, end).value.codepoint)| <= end - start - Count(marks)
  {
    hide Utf8, Count, Separate;
    var i := p - start;
    RoomGrows(marks, i);
    var literal := Utf16(content, p, end);
    if literal.Some? {
      CountWindow(marks, i, literal.value.length);
      RoomGrows(marks, i + literal.value.length);
    }
  }

  /** Afterwards there is still room for the terminator. */
  lemma Room(content: seq<uint8>, marks: seq<bool>, start: nat, end: nat, p: nat, length: nat, at: nat, bytes: nat)
    requires start <= p < end < |content| && |marks| == end - start && Separate(marks) && !marks[|marks| - 1]
    requires forall i :: 0 <= i < |marks| && marks[i] ==> content[start + i] == BACKSLASH
    requires at + Count(marks[..p - start]) <= p - start && StepSize(content, p, end, length, bytes)
    ensures at + bytes < end - start + 1 - Count(marks)
    ensures p + length <= end ==> at + bytes + Count(marks[..p + length - start]) <= p + length - start
  {
    hide Count, Separate;
    var i := p - start;
    if p + length <= end {
      CountWindow(marks, i, length);
      RoomGrows(marks, i + length);
    } else {
      CountNext(marks, i);
      RoomGrows(marks, i + 1);
    }
  }

  lemma CountNothing()
    ensures Count([]) == 0
  {}

  /** A code point as UTF-8, written from its last byte to its first. */
  method WriteUtf8(codepoint: nat, output: array<uint8>, at: nat) returns (next: nat)
    requires codepoint < 0x11_0000 && at + |Utf8(codepoint)| <= output.Length
    modifies output
    ensures next == at + |Utf8(codepoint)|
    ensures output[..next] == old(output[..at]) + Utf8(codepoint)
  {
    var length, mark;
    if codepoint < 0x80 {
      length, mark := 1, 0;
    } else if codepoint < 0x800 {
      length, mark := 2, 0xC0;
    } else if codepoint < 0x1_0000 {
      length, mark := 3, 0xE0;
    } else {
      length, mark := 4, 0xF0;
    }
    Utf8Bytes(codepoint, length, mark);
    next := WriteSequence(codepoint, length, mark, output, at);
  }

  method WriteSequence(codepoint: nat, length: nat, mark: nat, output: array<uint8>, at: nat) returns (next: nat)
    requires codepoint < 0x11_0000 && at + length <= output.Length && IsSequence(codepoint, length, mark)
    modifies output
    ensures next == at + length
    ensures output[..next] == old(output[..at]) + Utf8(codepoint)
  {
    hide Utf8, Shifted;
    ghost var u := Utf8(codepoint);
    var rest := codepoint;
    NoShift(codepoint);
    for position := length - 1 downto 0
      invariant rest == Shifted(codepoint, length - 1 - position)
      invariant forall k :: position < k < length ==> output[at + k] == u[k]
      invariant output[..at] == old(output[..at])
    {
      assert u[position + 1] == 0x80 + rest % 64;
      output[at + position + 1] := 0x80 + rest % 64;
      ShiftOnce(codepoint, length - 1 - (position + 1));
      rest := rest / 64;
    }
    output[at] := mark + rest;
    next := at + length;
    assert forall k :: 0 <= k < length ==> output[at + k] == u[k];
    assert output[at..next] == u;
    assert output[..next] == output[..at] + output[at..next];
  }

  /** The bytes of a sequence are six bits each, below the mark in the first. */
  ghost predicate IsSequence(codepoint: nat, length: nat, mark: nat)
    requires codepoint < 0x11_0000
  {
    var u := Utf8(codepoint);
    && 0 < length == |u|
    && u[0] == mark + Shifted(codepoint, length - 1)
    && forall k :: 0 < k < length ==> u[k] == 0x80 + Shifted(codepoint, length - 1 - k) % 64
  }

  lemma Utf8Bytes(codepoint: nat, length: nat, mark: nat)
    requires codepoint < 0x11_0000
    requires length
          == if codepoint < 0x80 then 1 else if codepoint < 0x800 then 2 else if codepoint < 0x1_0000 then 3 else 4
    requires mark == if length == 1 then 0 else if length == 2 then 0xC0 else if length == 3 then 0xE0 else 0xF0
    ensures IsSequence(codepoint, length, mark)
  {
    hide Shifted;
    NoShift(codepoint);
    Utf8Shifts(codepoint);
  }

  lemma NoShift(codepoint: nat)
    ensures Shifted(codepoint, 0) == codepoint
  {}

  lemma ShiftOnce(codepoint: nat, n: nat)
    ensures Shifted(codepoint, n + 1) == Shifted(codepoint, n) / 64
  {}

  /** n shifts to the right by six bits. */
  function Shifted(codepoint: nat, n: nat): nat {
    if n == 0 then codepoint else Shifted(codepoint, n - 1) / 64
  }

  lemma Utf8Shifts(codepoint: nat)
    ensures Shifted(codepoint, 1) == codepoint / 64
    ensures Shifted(codepoint, 2) == codepoint / 4096
    ensures Shifted(codepoint, 3) == codepoint / 262144
  {
    assert Shifted(codepoint, 1) == Shifted(codepoint, 0) / 64;
    assert Shifted(codepoint, 2) == Shifted(codepoint, 1) / 64;
    assert Shifted(codepoint, 3) == Shifted(codepoint, 2) / 64;
    DivDiv(codepoint, 64, 64);
    DivDiv(codepoint, 4096, 64);
  }
}
