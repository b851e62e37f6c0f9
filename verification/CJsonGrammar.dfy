/** Which texts parse, and as what: values written with blanks between their tokens. */
module CJsonGrammar {
  import opened ModArith
  import opened CJson
  import opened CJsonParse

  // ------------------------------------------------------------------ the grammar

  /** From p up to q there is nothing but white space and control characters. */
  ghost predicate Blank(content: seq<uint8>, p: nat, q: nat) {
    p <= q <= |content| && forall i :: p <= i < q ==> content[i] <= 32
  }

  predicate Word(content: seq<uint8>, o: nat, e: nat, word: string) {
    o + |word| == e <= |content| && forall i :: 0 <= i < |word| ==> content[o + i] as char == word[i]
  }

  /** The run of number characters at o, of which at most 63 are taken. */
  ghost predicate NumberRun(content: seq<uint8>, o: nat, m: nat) {
    && o <= m <= |content| && m - o <= 63 && (forall i :: o <= i < m ==> InNumber(content[i]))
    && (m - o < 63 && m < |content| ==> !InNumber(content[m]))
  }

  predicate InNumber(c: uint8) {
    c as char in "0123456789+-.eE"
  }

  ghost predicate NumberAt(strtod: Strtod, content: seq<uint8>, o: nat, e: nat, value: int) {
    && o < e <= |content| && (content[o] == 45 || 48 <= content[o] <= 57)
    && exists m: nat :: NumberRun(content, o, m) && strtod(content[o..m]) == (value, e - o)
  }

  /** The text from o up to e is the value j. */
  ghost predicate ValueAt(strtod: Strtod, content: seq<uint8>, o: nat, e: nat, j: Json)
    decreases j
  {
    && o < e <= |content|
    && match j
       case Null => Word(content, o, e, "null")
       case True => Word(content, o, e, "true")
       case False => Word(content, o, e, "false")
       case Number(value) => NumberAt(strtod, content, o, e, value)
       case String(s) => ParseString(content, o) == Quotation(s, e)
       case Array(items) =>
         && content[o] == 91
         && if items == [] then ClosedAt(content, o + 1, e, 93) else ItemsAt(strtod, content, o, e, j, 0)
       case Object(members) =>
         && content[o] == 123
         && if members == [] then ClosedAt(content, o + 1, e, 125) else MembersAt(strtod, content, o, e, j, 0)
  }

  ghost predicate ClosedAt(content: seq<uint8>, p: nat, e: nat, close: uint8) {
    p < e <= |content| && Blank(content, p, e - 1) && content[e - 1] == close
  }

  /** Behind the bracket or comma at o, the items from n on, up to the closing bracket before e. */
  ghost predicate ItemsAt(strtod: Strtod, content: seq<uint8>, o: nat, e: nat, j: Json, n: nat)
    requires j.Array? && n < |j.items|
    decreases j, |j.items| - n
  {
    exists a: nat, b: nat, c: nat ::
      && Blank(content, o + 1, a) && ValueAt(strtod, content, a, b, j.items[n]) && Blank(content, b, c)
      && c < |content|
      && if n + 1 < |j.items| then content[c] == 44 && ItemsAt(strtod, content, c, e, j, n + 1)
         else content[c] == 93 && e == c + 1
  }

  /** A name from a on, a colon, and a value that ends at d. */
  ghost predicate MemberAt(strtod: Strtod, content: seq<uint8>, a: nat, d: nat, m: Member)
    decreases m
  {
    exists b: nat, colon: nat, c: nat ::
      && a <= |content| && ParseString(content, a) == Quotation(m.name, b)
      && Blank(content, b, colon) && colon < |content| && content[colon] == 58
      && Blank(content, colon + 1, c) && ValueAt(strtod, content, c, d, m.value)
  }

  ghost predicate MembersAt(strtod: Strtod, content: seq<uint8>, o: nat, e: nat, j: Json, n: nat)
    requires j.Object? && n < |j.members|
    decreases j, |j.members| - n
  {
    exists a: nat, b: nat, c: nat ::
      && Blank(content, o + 1, a) && MemberAt(strtod, content, a, b, j.members[n]) && Blank(content, b, c)
      && c < |content|
      && if n + 1 < |j.members| then content[c] == 44 && MembersAt(strtod, content, c, e, j, n + 1)
         else content[c] == 125 && e == c + 1
  }

  // -------------------------------------------------------------------- tokens

  /** Skipping stops at the first visible character. */
  lemma SkipIs(content: seq<uint8>, p: nat, q: nat)
    requires p <= |content| && q < |content| && content[q] > 32
    ensures Blank(content, p, q) <==> Skip(content, p) == q
  {}

  lemma WordIs(content: seq<uint8>, o: nat, e: nat)
    ensures Word(content, o, e, "null") <==> IsAt(content, o, NULL_TEXT) && e == o + 4
    ensures Word(content, o, e, "true") <==> IsAt(content, o, TRUE_TEXT) && e == o + 4
    ensures Word(content, o, e, "false") <==> IsAt(content, o, FALSE_TEXT) && e == o + 5
  {
    SameText(content, o, e, "null", NULL_TEXT);
    SameText(content, o, e, "true", TRUE_TEXT);
    SameText(content, o, e, "false", FALSE_TEXT);
  }

  lemma SameText(content: seq<uint8>, o: nat, e: nat, word: string, t: seq<uint8>)
    requires |word| == |t| && forall i :: 0 <= i < |t| ==> t[i] as char == word[i]
    ensures Word(content, o, e, word) <==> IsAt(content, o, t) && e == o + |t|
  {
    if IsAt(content, o, t) && e == o + |t| {
      AtByte(content, o, t);
    }
    if Word(content, o, e, word) {
      forall i | 0 <= i < |t|
        ensures content[o..e][i] == t[i]
      {
        assert content[o + i] as char == word[i];
      }
    }
  }

  lemma InNumberIs(c: uint8)
    ensures InNumber(c) <==> NumberCharacter(c)
  {
    var s := "0123456789+-.eE";
    assert s[0] == '0' && s[1] == '1' && s[2] == '2' && s[3] == '3' && s[4] == '4' && s[5] == '5' && s[6] == '6';
    assert s[7] == '7' && s[8] == '8' && s[9] == '9' && s[10] == '+' && s[11] == '-' && s[12] == '.';
    assert s[13] == 'e' && s[14] == 'E';
  }

  /** The number text is the run. */
  lemma {:induction false} NumberTextIs(content: seq<uint8>, o: nat, n: nat)
    requires o <= |content|
    ensures var m := o + |NumberText(content, o, n)|;
      && m <= |content| && m - o <= n && NumberText(content, o, n) == content[o..m]
      && (forall i :: o <= i < m ==> InNumber(content[i]))
      && (m - o < n && m < |content| ==> !InNumber(content[m]))
    decreases n
  {
    hide InNumber, NumberCharacter;
    if o < |content| {
      InNumberIs(content[o]);
    }
    if n > 0 && o < |content| && NumberCharacter(content[o]) {
      NumberTextIs(content, o + 1, n - 1);
      var m := o + |NumberText(content, o, n)|;
      assert content[o..m] == [content[o]] + content[o + 1..m];
    }
  }

  lemma RunUnique(content: seq<uint8>, o: nat, m: nat, n: nat)
    requires NumberRun(content, o, m) && NumberRun(content, o, n)
    ensures m == n
  {
    hide InNumber;
  }

  lemma NumberAtRun(strtod: Strtod, content: seq<uint8>, o: nat, e: nat, value: int, m: nat)
    requires NumberRun(content, o, m)
    ensures NumberAt(strtod, content, o, e, value)
       <==> && o < e <= |content| && (content[o] == 45 || 48 <= content[o] <= 57)
            && strtod(content[o..m]) == (value, e - o)
  {
    hide NumberRun;
    forall k: nat | NumberRun(content, o, k)
      ensures k == m
    {
      RunUnique(content, o, k, m);
    }
  }

  lemma NumberParses(strtod: Strtod, content: seq<uint8>, o: nat, e: nat, value: int, depth: nat)
    requires ValidStrtod(strtod) && o < |content| && (content[o] == 45 || 48 <= content[o] <= 57)
    ensures ParseNumber(strtod, content, o, depth) == Success(Number(value), e)
       <==> NumberAt(strtod, content, o, e, value)
  {
    hide InNumber, NumberText, NumberAt;
    NumberTextIs(content, o, 63);
    NumberAtRun(strtod, content, o, e, value, o + |NumberText(content, o, 63)|);
  }

  // ------------------------------------------------------- what is written parses

  lemma ValueBegins(strtod: Strtod, content: seq<uint8>, o: nat, e: nat, j: Json)
    requires ValueAt(strtod, content, o, e, j)
    ensures o < |content|
    ensures match j
      case Null => content[o] == 110
      case True => content[o] == 116
      case False => content[o] == 102
      case Number(_) => content[o] == 45 || 48 <= content[o] <= 57
      case String(_) => content[o] == 34
      case Array(_) => content[o] == 91
      case Object(_) => content[o] == 123
  {
    hide ItemsAt, MembersAt, NumberRun, Blank;
    assert Word(content, o, e, "null") ==> content[o + 0] as char == "null"[0];
    assert Word(content, o, e, "true") ==> content[o + 0] as char == "true"[0];
    assert Word(content, o, e, "false") ==> content[o + 0] as char == "false"[0];
  }

  lemma WordInside(content: seq<uint8>, o: nat)
    ensures IsAt(content, o, NULL_TEXT) || IsAt(content, o, TRUE_TEXT) ==> o + 4 <= |content|
    ensures IsAt(content, o, FALSE_TEXT) ==> o + 5 <= |content|
  {}

  lemma {:induction false} ItemsKind(strtod: Strtod, content: seq<uint8>, o: nat, depth: nat, items: seq<Json>)
    requires ValidStrtod(strtod) && o < |content|
    ensures var r := ParseItems(strtod, content, o, depth, items); r.Success? ==> r.value.Array?
    decreases |content| - o
  {
    hide ParseValue, Skip;
    var v := ParseValue(strtod, content, Skip(content, o + 1), depth);
    if v.Success? && Skip(content, v.next) < |content| {
      ItemsKind(strtod, content, Skip(content, v.next), depth, items + [v.value]);
    }
  }

  lemma ArrayKind(strtod: Strtod, content: seq<uint8>, o: nat, depth: nat)
    requires ValidStrtod(strtod) && o < |content|
    ensures var r := ParseArray(strtod, content, o, depth); r.Success? ==> r.value.Array?
  {
    hide ParseItems, Skip;
    var p := Skip(content, o + 1);
    if p < |content| {
      ItemsKind(strtod, content, p - 1, depth + 1, []);
    }
  }

  lemma {:induction false} MembersKind(strtod: Strtod, content: seq<uint8>, o: nat, depth: nat, members: seq<Member>)
    requires ValidStrtod(strtod) && o < |content|
    ensures var r := ParseMembers(strtod, content, o, depth, members); r.Success? ==> r.value.Object?
    decreases |content| - o
  {
    hide ParseValue, ParseString, Skip;
    var name := ParseString(content, Skip(content, o + 1));
    if name.Quotation? {
      var c := Skip(content, name.next);
      if c < |content| && content[c] == COLON {
        var v := ParseValue(strtod, content, Skip(content, c + 1), depth);
        if v.Success? && Skip(content, v.next) < |content| {
          MembersKind(strtod, content, Skip(content, v.next), depth, members + [Member(name.bytes, v.value)]);
        }
      }
    }
  }

  lemma ObjectKind(strtod: Strtod, content: seq<uint8>, o: nat, depth: nat)
    requires ValidStrtod(strtod) && o < |content|
    ensures var r := ParseObject(strtod, content, o, depth); r.Success? ==> r.value.Object?
  {
    hide ParseMembers, Skip;
    var p := Skip(content, o + 1);
    if p < |content| {
      MembersKind(strtod, content, p - 1, depth + 1, []);
    }
  }

  /** The kinds of values that are not nested. */
  lemma LeafParses(strtod: Strtod, content: seq<uint8>, o: nat, e: nat, j: Json, depth: nat)
    requires ValidStrtod(strtod) && o <= |content| && !j.Array? && !j.Object?
    ensures ParseValue(strtod, content, o, depth) == Success(j, e) <==> ValueAt(strtod, content, o, e, j)
  {
    hide Word, IsAt, NumberRun, NumberText, ParseArray, ParseObject, StringEnd, Unescape;
    WordIs(content, o, e);
    WordInside(content, o);
    if o < |content| {
      NotLiteral(content, o);
      ArrayKind(strtod, content, o, depth);
      ObjectKind(strtod, content, o, depth);
      if j.Number? && (content[o] == 45 || 48 <= content[o] <= 57) {
        NumberParses(strtod, content, o, e, j.value, depth);
      }
    }
  }

  /** What is written parses to its value, if it is not nested too deeply. */
  lemma {:induction false} WrittenParses(strtod: Strtod, content: seq<uint8>, o: nat, e: nat, j: Json, depth: nat)
    requires ValidStrtod(strtod) && ValueAt(strtod, content, o, e, j) && depth + Depth(j) <= NESTING_LIMIT
    ensures o < |content| && ParseValue(strtod, content, o, depth) == Success(j, e)
    decreases j, 3, 0
  {
    hide ItemsAt, MembersAt, ParseItems, ParseMembers, ClosedAt, NumberAt, ParseString, ParseNumber, IsAt, Word;
    hide ItemsDepth, MembersDepth;
    ValueBegins(strtod, content, o, e, j);
    NotLiteral(content, o);
    match j {
      case Array(items) =>
        if items == [] {
          ClosedParses(content, o + 1, e, 93);
        } else {
          ItemsParse(strtod, content, o, e, j, 0, depth + 1, []);
          SkipBefore(strtod, content, o, depth + 1);
        }
      case Object(members) =>
        if members == [] {
          ClosedParses(content, o + 1, e, 125);
        } else {
          MembersParse(strtod, content, o, e, j, 0, depth + 1, []);
          SkipBefore(strtod, content, o, depth + 1);
        }
      case _ => LeafParses(strtod, content, o, e, j, depth);
    }
  }

  lemma ClosedParses(content: seq<uint8>, p: nat, e: nat, close: uint8)
    requires p <= |content| && close > 32
    ensures ClosedAt(content, p, e, close)
       <==> Skip(content, p) < |content| && content[Skip(content, p)] == close && e == Skip(content, p) + 1
  {
    if p < e <= |content| && content[e - 1] == close {
      SkipIs(content, p, e - 1);
    }
    var q := Skip(content, p);
    if q < |content| && content[q] == close {
      SkipIs(content, p, q);
    }
  }

  lemma SkipTwice(content: seq<uint8>, o: nat)
    requires o <= |content|
    ensures Skip(content, Skip(content, o)) == Skip(content, o)
  {}

  /** Skipping before the first item, as the code does, makes no difference. */
  lemma SkipBefore(strtod: Strtod, content: seq<uint8>, o: nat, depth: nat)
    requires ValidStrtod(strtod) && o < |content| && Skip(content, o + 1) < |content|
    ensures var p := Skip(content, o + 1);
      && ParseItems(strtod, content, p - 1, depth, []) == ParseItems(strtod, content, o, depth, [])
      && ParseMembers(strtod, content, p - 1, depth, []) == ParseMembers(strtod, content, o, depth, [])
  {
    hide ParseValue, ParseString, Skip;
    SkipTwice(content, o + 1);
  }

  lemma {:induction false} ItemsParse(strtod: Strtod, content: seq<uint8>, o: nat, e: nat, j: Json, n: nat,
                                      depth: nat, items: seq<Json>)
    requires ValidStrtod(strtod) && j.Array? && n < |j.items| && items == j.items[..n] && o < |content|
    requires ItemsAt(strtod, content, o, e, j, n) && depth + ItemsDepth(j, n) <= NESTING_LIMIT
    ensures ParseItems(strtod, content, o, depth, items) == Success(j, e)
    ensures var p := Skip(content, o + 1); p < |content| && content[p] != CLOSE_ARRAY
    decreases j, 1, |j.items| - n
  {
    hide ValueAt, ParseValue, ParseItems, Depth, Skip, Blank;
    var item := j.items[n];
    var a: nat, b: nat, c: nat :|
      && Blank(content, o + 1, a) && ValueAt(strtod, content, a, b, item) && Blank(content, b, c) && c < |content|
      && if n + 1 < |j.items| then content[c] == 44 && ItemsAt(strtod, content, c, e, j, n + 1)
         else content[c] == 93 && e == c + 1;
    ValueBegins(strtod, content, a, b, item);
    SkipIs(content, o + 1, a);
    WrittenParses(strtod, content, a, b, item, depth);
    InsideAt(strtod, content, a, b, item);
    SkipIs(content, b, c);
    ItemsStep(strtod, content, o, depth, items, Success(item, b), c);
    assert j.items[..n + 1] == items + [item];
    if n + 1 < |j.items| {
      ItemsParse(strtod, content, c, e, j, n + 1, depth, items + [item]);
    } else {
      assert j == Array(items + [item]);
    }
  }

  lemma InsideAt(strtod: Strtod, content: seq<uint8>, o: nat, e: nat, j: Json)
    requires ValueAt(strtod, content, o, e, j)
    ensures o < e <= |content|
  {}

  lemma {:induction false} MembersParse(strtod: Strtod, content: seq<uint8>, o: nat, e: nat, j: Json, n: nat,
                                        depth: nat, members: seq<Member>)
    requires ValidStrtod(strtod) && j.Object? && n < |j.members| && members == j.members[..n] && o < |content|
    requires MembersAt(strtod, content, o, e, j, n) && depth + MembersDepth(j, n) <= NESTING_LIMIT
    ensures ParseMembers(strtod, content, o, depth, members) == Success(j, e)
    ensures var p := Skip(content, o + 1); p < |content| && content[p] != CLOSE_OBJECT
    decreases j, 1, |j.members| - n
  {
    hide ValueAt, ParseValue, ParseString, ParseMembers, Depth, Skip, Blank, MemberAt;
    var m := j.members[n];
    var a: nat, b: nat, c: nat :|
      && Blank(content, o + 1, a) && MemberAt(strtod, content, a, b, m) && Blank(content, b, c) && c < |content|
      && if n + 1 < |j.members| then content[c] == 44 && MembersAt(strtod, content, c, e, j, n + 1)
         else content[c] == 125 && e == c + 1;
    var colon := MemberParses(strtod, content, a, b, m, depth);
    QuoteBegins(content, a);
    SkipIs(content, o + 1, a);
    SkipIs(content, b, c);
    var name := ParseString(content, a);
    MembersStep(strtod, content, o, depth, members, name, colon, Success(m.value, b), c);
    assert Member(name.bytes, m.value) == m;
    assert j.members[..n + 1] == members + [m];
    if n + 1 < |j.members| {
      MembersParse(strtod, content, c, e, j, n + 1, depth, members + [m]);
    } else {
      assert j == Object(members + [m]);
    }
  }

  lemma QuoteBegins(content: seq<uint8>, o: nat)
    requires o <= |content| && ParseString(content, o).Quotation?
    ensures o < |content| && content[o] == 34
  {
    hide StringEnd, Unescape;
  }

  /** The name, the colon and the value of one member. */
  lemma {:induction false} MemberParses(strtod: Strtod, content: seq<uint8>, a: nat, d: nat, m: Member, depth: nat)
    returns (colon: nat)
    requires ValidStrtod(strtod) && MemberAt(strtod, content, a, d, m) && depth + Depth(m.value) <= NESTING_LIMIT
    ensures a <= |content| && ParseString(content, a).Quotation? && ParseString(content, a).bytes == m.name
    ensures colon == Skip(content, ParseString(content, a).next) < |content| && content[colon] == COLON
    ensures ParseValue(strtod, content, Skip(content, colon + 1), depth) == Success(m.value, d)
    ensures a < d <= |content|
    decreases m, 1, 0
  {
    hide ValueAt, ParseValue, ParseString, Depth, Skip, Blank;
    var b: nat, at: nat, c: nat :|
      && a <= |content| && ParseString(content, a) == Quotation(m.name, b)
      && Blank(content, b, at) && at < |content| && content[at] == 58
      && Blank(content, at + 1, c) && ValueAt(strtod, content, c, d, m.value);
    colon := at;
    SkipIs(content, b, colon);
    ValueBegins(strtod, content, c, d, m.value);
    SkipIs(content, colon + 1, c);
    WrittenParses(strtod, content, c, d, m.value, depth);
    InsideAt(strtod, content, c, d, m.value);
  }

  // ------------------------------------------------------ what parses was written

  /** A visible character that the parser goes on from is where the blanks end. */
  lemma BlankToSkip(content: seq<uint8>, p: nat)
    requires p <= |content|
    ensures var q := Skip(content, p); q < |content| && content[q] > 32 ==> Blank(content, p, q)
  {}

  /** Whatever parses is written there, and not nested too deeply. */
  lemma {:induction false} ParsedWritten(strtod: Strtod, content: seq<uint8>, o: nat, depth: nat, j: Json, e: nat)
    requires ValidStrtod(strtod) && o <= |content| && depth <= NESTING_LIMIT
    requires ParseValue(strtod, content, o, depth) == Success(j, e)
    ensures ValueAt(strtod, content, o, e, j) && depth + Depth(j) <= NESTING_LIMIT
    decreases |content| - o, 3
  {
    hide ParseArray, ParseObject, ValueAt, Depth, IsAt;
    LeafDepth(j);
    if j.Array? || j.Object? {
      KindBegins(strtod, content, o, depth);
      if j.Array? {
        ArrayWritten(strtod, content, o, depth, j, e);
      } else {
        ObjectWritten(strtod, content, o, depth, j, e);
      }
    } else {
      LeafParses(strtod, content, o, e, j, depth);
    }
  }

  lemma KindBegins(strtod: Strtod, content: seq<uint8>, o: nat, depth: nat)
    requires ValidStrtod(strtod) && o <= |content|
    ensures var r := ParseValue(strtod, content, o, depth);
      && (r.Success? && r.value.Array? ==>
            o < |content| && content[o] == 91 && r == ParseArray(strtod, content, o, depth))
      && (r.Success? && r.value.Object? ==>
            o < |content| && content[o] == 123 && r == ParseObject(strtod, content, o, depth))
  {
    hide ParseArray, ParseObject, IsAt, ParseString, NumberText;
    if o < |content| {
      ArrayKind(strtod, content, o, depth);
      ObjectKind(strtod, content, o, depth);
    }
  }

  lemma {:induction false} ArrayWritten(strtod: Strtod, content: seq<uint8>, o: nat, depth: nat, j: Json, e: nat)
    requires ValidStrtod(strtod) && o < |content| && depth <= NESTING_LIMIT && content[o] == 91 && j.Array?
    requires ParseArray(strtod, content, o, depth) == Success(j, e)
    ensures ValueAt(strtod, content, o, e, j) && depth + Depth(j) <= NESTING_LIMIT
    decreases |content| - o, 2
  {
    hide ParseItems, ItemsAt, ClosedAt, Skip, ItemsDepth;
    var p := Skip(content, o + 1);
    NoItems(j);
    if content[p] == 93 {
      ClosedParses(content, o + 1, e, 93);
    } else {
      SkipBefore(strtod, content, o, depth + 1);
      ItemsWritten(strtod, content, o, depth + 1, [], j, e);
    }
  }

  lemma {:induction false} ItemsWritten(strtod: Strtod, content: seq<uint8>, o: nat, depth: nat, items: seq<Json>,
                                        j: Json, e: nat)
    requires ValidStrtod(strtod) && o < |content| && depth <= NESTING_LIMIT && j.Array?
    requires ParseItems(strtod, content, o, depth, items) == Success(j, e)
    ensures o < e <= |content| && |items| < |j.items| && j.items[..|items|] == items
    ensures ItemsAt(strtod, content, o, e, j, |items|) && depth + ItemsDepth(j, |items|) <= NESTING_LIMIT
    decreases |content| - o, 1
  {
    hide ParseValue, ParseItems, ValueAt, Blank, Skip, Depth, ItemsDepth;
    var a := Skip(content, o + 1);
    var v := ParseValue(strtod, content, a, depth);
    var c := if v.Success? then Skip(content, v.next) else 0;
    ItemsStep(strtod, content, o, depth, items, v, c);
    var n, item := |items|, v.value;
    ParsedWritten(strtod, content, a, depth, item, v.next);
    ValueBegins(strtod, content, a, v.next, item);
    BlankToSkip(content, o + 1);
    BlankToSkip(content, v.next);
    if content[c] == COMMA {
      ItemsWritten(strtod, content, c, depth, items + [item], j, e);
      assert j.items[..n] == j.items[..n + 1][..n] == items;
    } else {
      assert j == Array(items + [item]);
    }
    assert j.items[n] == (items + [item])[n] == item;
    ItemsDepthStep(j, n);
  }

  lemma ItemsDepthStep(j: Json, n: nat)
    requires j.Array? && n < |j.items|
    ensures ItemsDepth(j, n) == Max(Depth(j.items[n]), ItemsDepth(j, n + 1))
    ensures n + 1 == |j.items| ==> ItemsDepth(j, n + 1) == 0
  {
    hide Depth;
  }

  lemma {:induction false} ObjectWritten(strtod: Strtod, content: seq<uint8>, o: nat, depth: nat, j: Json, e: nat)
    requires ValidStrtod(strtod) && o < |content| && depth <= NESTING_LIMIT && content[o] == 123 && j.Object?
    requires ParseObject(strtod, content, o, depth) == Success(j, e)
    ensures ValueAt(strtod, content, o, e, j) && depth + Depth(j) <= NESTING_LIMIT
    decreases |content| - o, 2
  {
    hide ParseMembers, MembersAt, ClosedAt, Skip, MembersDepth;
    var p := Skip(content, o + 1);
    NoItems(j);
    if content[p] == 125 {
      ClosedParses(content, o + 1, e, 125);
    } else {
      SkipBefore(strtod, content, o, depth + 1);
      MembersWritten(strtod, content, o, depth + 1, [], j, e);
    }
  }

  lemma {:induction false} MembersWritten(strtod: Strtod, content: seq<uint8>, o: nat, depth: nat,
                                          members: seq<Member>, j: Json, e: nat)
    requires ValidStrtod(strtod) && o < |content| && depth <= NESTING_LIMIT && j.Object?
    requires ParseMembers(strtod, content, o, depth, members) == Success(j, e)
    ensures o < e <= |content| && |members| < |j.members| && j.members[..|members|] == members
    ensures MembersAt(strtod, content, o, e, j, |members|) && depth + MembersDepth(j, |members|) <= NESTING_LIMIT
    decreases |content| - o, 1
  {
    hide ParseValue, ParseString, ParseMembers, ValueAt, Blank, Skip, Depth, MembersDepth, MemberAt;
    var a := Skip(content, o + 1);
    var name := ParseString(content, a);
    if name.Malformed? || (var c := Skip(content, name.next); c >= |content| || content[c] != COLON) {
      MembersFail(strtod, content, o, depth, members);
    } else {
      var colon := Skip(content, name.next);
      var v := ParseValue(strtod, content, Skip(content, colon + 1), depth);
      var c := if v.Success? then Skip(content, v.next) else 0;
      MembersStep(strtod, content, o, depth, members, name, colon, v, c);
      var n, m := |members|, Member(name.bytes, v.value);
      MemberWritten(strtod, content, a, depth, m, v.next);
      QuoteBegins(content, a);
      BlankToSkip(content, o + 1);
      BlankToSkip(content, v.next);
      if content[c] == COMMA {
        MembersWritten(strtod, content, c, depth, members + [m], j, e);
        assert j.members[..n] == j.members[..n + 1][..n] == members;
      } else {
        assert j == Object(members + [m]);
      }
      assert j.members[n] == (members + [m])[n] == m;
      MembersDepthStep(j, n);
    }
  }

  lemma MembersDepthStep(j: Json, n: nat)
    requires j.Object? && n < |j.members|
    ensures MembersDepth(j, n) == Max(Depth(j.members[n].value), MembersDepth(j, n + 1))
    ensures n + 1 == |j.members| ==> MembersDepth(j, n + 1) == 0
  {
    hide Depth;
  }

  lemma {:induction false} MemberWritten(strtod: Strtod, content: seq<uint8>, a: nat, depth: nat, m: Member, d: nat)
    requires ValidStrtod(strtod) && a <= |content| && depth <= NESTING_LIMIT
    requires ParseString(content, a).Quotation? && ParseString(content, a).bytes == m.name
    requires var colon := Skip(content, ParseString(content, a).next);
      && colon < |content| && content[colon] == COLON
      && ParseValue(strtod, content, Skip(content, colon + 1), depth) == Success(m.value, d)
    ensures MemberAt(strtod, content, a, d, m) && depth + Depth(m.value) <= NESTING_LIMIT
    decreases |content| - a, 0
  {
    hide ParseValue, ParseString, ValueAt, Blank, Skip, Depth;
    var name := ParseString(content, a);
    var colon := Skip(content, name.next);
    var c := Skip(content, colon + 1);
    ParsedWritten(strtod, content, c, depth, m.value, d);
    ValueBegins(strtod, content, c, d, m.value);
    BlankToSkip(content, name.next);
    BlankToSkip(content, colon + 1);
  }

  /** The parser accepts exactly what is written as a value and nested at most 1000 deep, and gives that value. */
  lemma AcceptsExactly(strtod: Strtod, content: seq<uint8>, o: nat, depth: nat, j: Json, e: nat)
    requires ValidStrtod(strtod) && o <= |content| && depth <= 1000
    ensures ParseValue(strtod, content, o, depth) == Success(j, e)
       <==> ValueAt(strtod, content, o, e, j) && depth + Depth(j) <= 1000
  {
    hide ParseValue, ValueAt, Depth;
    if ParseValue(strtod, content, o, depth) == Success(j, e) {
      ParsedWritten(strtod, content, o, depth, j, e);
    }
    if ValueAt(strtod, content, o, e, j) && depth + Depth(j) <= 1000 {
      WrittenParses(strtod, content, o, e, j, depth);
    }
  }

  /** A value begins behind the byte order mark, if there is one, and blanks. */
  ghost predicate BeginsAt(content: seq<uint8>, p: nat) {
    var marked := |content| > 4 && content[0] == 0xEF && content[1] == 0xBB && content[2] == 0xBF;
    Blank(content, if marked then 3 else 0, p)
  }

  /** Behind the value there is anything; or if the end is required, blanks up to a zero byte at the very end. */
  ghost predicate EndsAt(content: seq<uint8>, e: nat, requireEnd: bool, end: nat) {
    if requireEnd then
      e < |content| && Blank(content, e, |content|) && content[|content| - 1] == 0 && end == |content| - 1
    else end == e
  }

  lemma MarkIs(content: seq<uint8>)
    requires |content| > 4
    ensures IsAt(content, 0, BOM) <==> content[0] == 0xEF && content[1] == 0xBB && content[2] == 0xBF
  {
    if content[0] == 0xEF && content[1] == 0xBB && content[2] == 0xBF {
      assert content[0..3] == BOM;
    }
    if IsAt(content, 0, BOM) {
      AtByte(content, 0, BOM);
      assert content[0 + 0] == BOM[0] && content[0 + 1] == BOM[1] && content[0 + 2] == BOM[2];
    }
  }

  lemma EndIs(content: seq<uint8>, e: nat)
    requires e <= |content|
    ensures var end := Skip(content, e);
      end < |content| && content[end] == 0
      <==> e < |content| && Blank(content, e, |content|) && content[|content| - 1] == 0
    ensures e < |content| && Blank(content, e, |content|) ==> Skip(content, e) == |content| - 1
  {}

  /** A document parses exactly if it is a value nested at most 1000 deep, with what may stand around it. */
  lemma DocumentExactly(strtod: Strtod, content: seq<uint8>, requireEnd: bool, j: Json, end: nat)
    requires ValidStrtod(strtod)
    ensures Parse(strtod, content, requireEnd) == Parsed(j, end)
       <==> Depth(j) <= 1000
            && exists p: nat, e: nat ::
                 BeginsAt(content, p) && ValueAt(strtod, content, p, e, j) && EndsAt(content, e, requireEnd, end)
  {
    hide ValueAt, Depth, ParseValue, Skip, IsAt;
    var start := if 4 < |content| && IsAt(content, 0, BOM) then 3 else 0;
    if |content| > 4 {
      MarkIs(content);
    }
    var first := Skip(content, start);
    var v := ParseValue(strtod, content, first, 0);
    if Parse(strtod, content, requireEnd) == Parsed(j, end) {
      AcceptsExactly(strtod, content, first, 0, j, v.next);
      ValueBegins(strtod, content, first, v.next, j);
      BlankToSkip(content, start);
      EndIs(content, v.next);
      assert BeginsAt(content, first) && EndsAt(content, v.next, requireEnd, end);
    }
    if Depth(j) <= 1000 {
      forall p: nat, e: nat
        | BeginsAt(content, p) && ValueAt(strtod, content, p, e, j) && EndsAt(content, e, requireEnd, end)
        ensures Parse(strtod, content, requireEnd) == Parsed(j, end)
      {
        ValueBegins(strtod, content, p, e, j);
        InsideAt(strtod, content, p, e, j);
        SkipIs(content, start, p);
        AcceptsExactly(strtod, content, p, 0, j, e);
        EndIs(content, e);
      }
    }
  }
}
