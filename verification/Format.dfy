/** Decimal formatting of amounts, written from the end of the buffer towards its start. */
module Format {
  import opened ModArith
  import opened Limbs
  import opened Bignum
  import opened Division
  import Radix

  const ZERO: uint8 := 48
  const POINT: uint8 := 46

  // ------------------------------------------------------------- specification

  /** "%d". */
  function Decimal(n: nat): (s: seq<uint8>)
    ensures s != [] && 48 <= s[|s| - 1] <= 57
  {
    (if n < 10 then [] else Decimal(n / 10)) + [ZERO + n % 10]
  }

  /** "%0*d" for a number of at most k digits. */
  function Padded(v: nat, k: nat): (s: seq<uint8>)
    ensures |s| == k
  {
    if k == 0 then [] else Padded(v / 10, k - 1) + [ZERO + v % 10]
  }

  /** rstrip of one character. */
  function RStrip(s: seq<uint8>, c: uint8): seq<uint8> {
    if s != [] && s[|s| - 1] == c then RStrip(s[..|s| - 1], c) else s
  }

  lemma PowTen(e: nat)
    ensures Pow(10, e) > 0
  {
    PowPositive(10, e);
  }

  /** amount * 10^exponent, rounded down. */
  function Scaled(amount: nat, exponent: int): nat {
    PowTen(if exponent >= 0 then exponent else -exponent);
    if exponent >= 0 then NatTimes(amount, Pow(10, exponent)) else NatOver(amount, Pow(10, -exponent))
  }

  function NatTimes(a: nat, b: nat): nat {
    MulMonotone(0, a, b);
    a * b
  }

  function NatOver(a: nat, b: nat): nat
    requires b > 0
  {
    DivMonotone(0, a, b);
    a / b
  }

  /** The number part, as the Python prototype in the source computes it. */
  ghost function Body(a: nat, decimals: nat, trailing: bool): seq<uint8> {
    PowTen(decimals);
    var d := Pow(10, decimals);
    if decimals == 0 then Decimal(NatOver(a, d))
    else
      var s := Decimal(NatOver(a, d)) + [POINT] + Padded(a % d, decimals);
      if trailing then s else RStrip(RStrip(s, ZERO), POINT)
  }

  ghost function Formatted(amount: nat, prefix: seq<uint8>, suffix: seq<uint8>, decimals: nat, exponent: int,
                           trailing: bool): seq<uint8> {
    prefix + Body(Scaled(amount, exponent), decimals, trailing) + suffix
  }

  // ------------------------------------------ the same, from the last digit up

  /** The digits behind the point, without trailing zeros unless they are wanted. */
  function Fraction(v: nat, k: nat, all: bool): seq<uint8> {
    if k == 0 then []
    else if all || v % 10 != 0 then Padded(v, k)
    else Fraction(v / 10, k - 1, false)
  }

  /** What is still to be written when k digits of v belong behind the point; begun says whether some already are. */
  ghost function Rest(v: nat, k: nat, begun: bool, trailing: bool): seq<uint8> {
    PowTen(k);
    var f := Fraction(v, k, begun || trailing);
    Decimal(NatOver(v, Pow(10, k))) + (if begun || f != [] then [POINT] else []) + f
  }

  lemma DropDigit(v: nat, k: nat)
    requires k > 0
    ensures Pow(10, k) > 0 && Pow(10, k - 1) > 0
    ensures NatOver(v, Pow(10, k)) == NatOver(v / 10, Pow(10, k - 1))
    ensures v % Pow(10, k) / 10 == v / 10 % Pow(10, k - 1) && v % Pow(10, k) % 10 == v % 10
  {
    PowTen(k);
    PowTen(k - 1);
    var p, d := Pow(10, k - 1), Pow(10, k);
    DivDiv(v, 10, p);
    var q, r := v / d, v % d;
    var r1, r0 := r / 10, r % 10;
    assert v == q * d + r && r == 10 * r1 + r0;
    assert q * d == 10 * (q * p);
    DivUnique(v, 10, q * p + r1, r0);
    DivUnique(v / 10, p, q, r1);
  }

  lemma {:induction false} PaddedMod(v: nat, k: nat)
    ensures Pow(10, k) > 0 && Padded(v % Pow(10, k), k) == Padded(v, k)
  {
    PowTen(k);
    if k > 0 {
      DropDigit(v, k);
      PaddedMod(v / 10, k - 1);
    }
  }

  /** Stripping zeros from the padded digits leaves the fraction. */
  lemma {:induction false} StripDigits(p: seq<uint8>, v: nat, k: nat)
    requires p != [] && p[|p| - 1] == POINT
    ensures RStrip(p + Padded(v, k), ZERO) == p + Fraction(v, k, false)
    decreases k
  {
    if k == 0 {
      assert p + [] == p;
    } else {
      var s := p + Padded(v, k);
      assert s[|s| - 1] == ZERO + v % 10;
      assert s[..|s| - 1] == p + Padded(v / 10, k - 1);
      StripDigits(p, v / 10, k - 1);
    }
  }

  lemma {:induction false} FractionEnds(v: nat, k: nat)
    ensures var f := Fraction(v, k, false); f != [] ==> 48 < f[|f| - 1] <= 57
  {
    if k > 0 && v % 10 == 0 {
      FractionEnds(v / 10, k - 1);
    }
  }

  /** The prototype's two strips amount to leaving out trailing zeros, and the point if nothing remains behind it. */
  lemma BodyIsRest(a: nat, k: nat, trailing: bool)
    ensures Body(a, k, trailing) == Rest(a, k, false, trailing)
  {
    hide Decimal, Padded, Pow;
    PowTen(k);
    PaddedMod(a, k);
    var whole := Decimal(NatOver(a, Pow(10, k)));
    var f := Fraction(a, k, false);
    if k > 0 && !trailing {
      StripDigits(whole + [POINT], a, k);
      FractionEnds(a, k);
      var s := whole + [POINT] + f;
      if f == [] {
        assert s[..|s| - 1] == whole && whole + [] == whole;
        assert RStrip(whole, POINT) == whole;
      } else {
        assert s[|s| - 1] == f[|f| - 1];
      }
    }
  }

  /** Moving one digit out of the rest. */
  lemma RestStep(v: nat, k: nat, begun: bool, trailing: bool)
    requires k > 0
    ensures begun || trailing || v % 10 != 0 ==>
      Rest(v, k, begun, trailing) == Rest(v / 10, k - 1, true, trailing) + [ZERO + v % 10]
    ensures !begun && !trailing && v % 10 == 0 ==> Rest(v, k, begun, trailing) == Rest(v / 10, k - 1, false, false)
  {
    hide Decimal, Pow;
    DropDigit(v, k);
  }

  lemma {:induction false} RestOfZero(k: nat)
    ensures Rest(0, k, false, false) == Decimal(0)
  {
    hide Decimal, Pow;
    PowTen(k);
    DivUnique(0, Pow(10, k), 0, 0);
    FractionOfZero(k);
  }

  lemma {:induction false} FractionOfZero(k: nat)
    ensures Fraction(0, k, false) == []
  {
    if k > 0 {
      FractionOfZero(k - 1);
    }
  }

  lemma RestOfNothing(v: nat, begun: bool, trailing: bool)
    ensures Rest(v, 0, begun, trailing) == Decimal(v) + (if begun then [POINT] else [])
    ensures !begun ==> Rest(v, 0, begun, trailing) == Decimal(v)
  {
    hide Decimal;
    PowTen(0);
    DivUnique(v, 1, v, 0);
    assert Pow(10, 0) == 1;
  }

  lemma TimesTen(t: nat, e: nat)
    requires e > 0
    ensures Scaled(t, e) % 10 == 0 && Scaled(t, e) / 10 == Scaled(t, e - 1)
    ensures Scaled(t, e) == 10 * Scaled(t, e - 1)
    ensures t > 0 ==> Scaled(t, e) >= 10
  {
    PowTen(e - 1);
    var s := t * Pow(10, e - 1);
    assert t * Pow(10, e) == s * 10;
    DivUnique(s * 10, 10, s, 0);
    if t > 0 {
      MulMonotone(1, t, Pow(10, e - 1));
    }
  }

  /** Zeros that come from the exponent and are not wanted. */
  lemma {:induction false} SkipZeros(t: nat, e: nat, k: nat, m: nat)
    requires m <= e && m <= k
    ensures Rest(Scaled(t, e), k, false, false) == Rest(Scaled(t, e - m), k - m, false, false)
    decreases m
  {
    hide Rest, Scaled;
    if m > 0 {
      TimesTen(t, e);
      RestStep(Scaled(t, e), k, false, false);
      SkipZeros(t, e - 1, k - 1, m - 1);
    }
  }

  lemma DecimalStep(t: nat)
    ensures Decimal(t) == (if t < 10 then [] else Decimal(t / 10)) + [ZERO + t % 10]
  {}

  lemma {:induction false} ScaledStep(a: nat, e: int)
    requires e < 0
    ensures Scaled(a / 10, e + 1) == Scaled(a, e) && Scaled(0, e) == 0 && Scaled(a, 0) == a
  {
    PowTen(-e);
    PowTen(-e - 1);
    DivDiv(a, 10, Pow(10, -e - 1));
    DivUnique(0, Pow(10, -e), 0, 0);
    assert Pow(10, 0) == 1;
    DivUnique(a, 1, a, 0);
  }

  // ------------------------------------------------------------------- the code

  /** What has been written so far, behind position, together with the rest gives the total. */
  ghost predicate Writing(output: array<uint8>, position: int, rest: seq<uint8>, total: seq<uint8>)
    reads output
  {
    0 <= position <= output.Length && rest + output[position..] == total
  }

  ghost predicate Cleared(output: array<uint8>)
    reads output
  {
    forall i :: 0 <= i < output.Length ==> output[i] == 0
  }

  /** BN_FORMAT_ADD_OUTPUT_CHAR: one more character in front, or the output cleared when it does not fit. */
  method AddChar(c: uint8, output: array<uint8>, position: int, ghost rest: seq<uint8>, ghost total: seq<uint8>)
    returns (ok: bool, next: int)
    requires Writing(output, position, rest + [c], total)
    modifies output
    ensures ok ==> Writing(output, next, rest, total)
    ensures !ok ==> |total| > output.Length && Cleared(output)
  {
    ghost var written := output[position..];
    next := position - 1;
    ok := 0 <= next;
    if ok {
      output[next] := c;
      assert output[next..] == [c] + written;
      assert rest + output[next..] == rest + [c] + written;
    } else {
      forall i | 0 <= i < output.Length {
        output[i] := 0;
      }
    }
  }

  /** The characters of a string, last one first. */
  method AddString(s: seq<uint8>, output: array<uint8>, position: int, ghost rest: seq<uint8>, ghost total: seq<uint8>)
    returns (ok: bool, next: int)
    requires Writing(output, position, rest + s, total)
    modifies output
    ensures ok ==> Writing(output, next, rest, total)
    ensures !ok ==> |total| > output.Length && Cleared(output)
  {
    hide Writing;
    next := position;
    assert s[..|s|] == s;
    for i := |s| downto 0
      invariant Writing(output, next, rest + s[..i], total)
    {
      assert rest + s[..i + 1] == rest + s[..i] + [s[i]];
      ok, next := AddChar(s[i], output, next, rest + s[..i], total);
      if !ok {
        return;
      }
    }
    assert rest + s[..0] == rest;
    ok := true;
  }

  /** Divides by ten as often as the exponent is negative, or until nothing is left. */
  method ScaleDown(temp: array<uint32>, exponent: int) returns (e: nat)
    requires Num(temp)
    modifies temp
    ensures old(Val(temp)) >= 0 && Num(temp) && Val(temp) >= 0
    ensures Scaled(Val(temp), e) == Scaled(old(Val(temp)), exponent)
  {
    hide Value, Scaled;
    ghost var amount := Val(temp);
    ValueBound(temp[..]);
    var left := exponent;
    while left < 0
      invariant Num(temp) && Val(temp) >= 0
      invariant Scaled(Val(temp), left) == Scaled(amount, exponent)
      decreases -left
    {
      ScaledStep(Val(temp), left);
      var zero := IsZero(temp);
      if zero {
        ScaledOfZero();
        return 0;
      }
      var digit := LongDivision(temp, 10, temp);
      ValueBound(temp[..]);
      left := left + 1;
    }
    e := left;
  }

  lemma ScaledOfZero()
    ensures Scaled(0, 0) == 0
  {}

  /** The digits behind the point; e' is what is left of the exponent. */
  method AddFraction(temp: array<uint32>, decimals: nat, exponent: nat, trailing: bool, output: array<uint8>,
                     position: int, ghost prefix: seq<uint8>, ghost total: seq<uint8>)
    returns (ok: bool, next: int, e': nat, begun: bool)
    requires Num(temp) && Val(temp) >= 0
    requires Writing(output, position, prefix + Rest(Scaled(Val(temp), exponent), decimals, false, trailing), total)
    modifies temp, output
    ensures ok ==> Num(temp) && Val(temp) >= 0
    ensures ok ==>
      Writing(output, next, prefix + (Decimal(Scaled(Val(temp), e')) + (if begun then [POINT] else [])), total)
    ensures !ok ==> |total| > output.Length && Cleared(output)
  {
    hide Writing, Value, Scaled, Rest, Decimal;
    var zeros := if decimals < exponent then decimals else exponent;
    var k := decimals - zeros;
    e' := exponent - zeros;
    ok, next, begun := true, position, false;
    if trailing && zeros > 0 {
      begun := true;
      ok, next := AddZeros(Val(temp), decimals, exponent, zeros, output, next, prefix, total);
      if !ok {
        return;
      }
    } else if !trailing {
      SkipZeros(Val(temp), exponent, decimals, zeros);
    }
    ok, next, begun := AddDigits(temp, k, e', begun, trailing, output, next, prefix, total);
  }

  /** The zeros that the exponent contributes behind the point. */
  method AddZeros(ghost t: nat, ghost k: nat, ghost e: nat, zeros: nat, output: array<uint8>, position: int,
                  ghost prefix: seq<uint8>, ghost total: seq<uint8>)
    returns (ok: bool, next: int)
    requires 0 < zeros <= e && zeros <= k
    requires Writing(output, position, prefix + Rest(Scaled(t, e), k, false, true), total)
    modifies output
    ensures ok ==> Writing(output, next, prefix + Rest(Scaled(t, e - zeros), k - zeros, true, true), total)
    ensures !ok ==> |total| > output.Length && Cleared(output)
  {
    hide Writing, Scaled, Rest;
    next := position;
    for i := 0 to zeros
      invariant Writing(output, next, prefix + Rest(Scaled(t, e - i), k - i, i > 0, true), total)
    {
      ghost var before, rest := Scaled(t, e - i), Rest(Scaled(t, e - i - 1), k - i - 1, true, true);
      TimesTen(t, e - i);
      RestStep(before, k - i, i > 0, true);
      assert prefix + (rest + [ZERO]) == prefix + rest + [ZERO];
      ok, next := AddChar(ZERO, output, next, prefix + rest, total);
      if !ok {
        return;
      }
    }
    ok := true;
  }

  /** The significant digits behind the point. */
  method AddDigits(temp: array<uint32>, decimals: nat, ghost e: nat, begun0: bool, trailing: bool, output: array<uint8>,
                   position: int, ghost prefix: seq<uint8>, ghost total: seq<uint8>)
    returns (ok: bool, next: int, begun: bool)
    requires Num(temp) && Val(temp) >= 0 && (e == 0 || decimals == 0)
    requires Writing(output, position, prefix + Rest(Scaled(Val(temp), e), decimals, begun0, trailing), total)
    modifies temp, output
    ensures ok ==> Num(temp) && Val(temp) >= 0
    ensures ok ==>
      Writing(output, next, prefix + (Decimal(Scaled(Val(temp), e)) + (if begun then [POINT] else [])), total)
    ensures !ok ==> |total| > output.Length && Cleared(output)
  {
    hide Writing, Value, Scaled, Rest, Decimal;
    next, begun := position, begun0;
    var k := decimals;
    while k > 0
      invariant 0 <= k <= decimals && Num(temp) && Val(temp) >= 0
      invariant Writing(output, next, prefix + Rest(Scaled(Val(temp), e), k, begun, trailing), total)
    {
      ghost var v: nat := Val(temp);
      ScaledOne(v);
      RestStep(v, k, begun, trailing);
      var digit := LongDivision(temp, 10, temp);
      ValueBound(temp[..]);
      ScaledOne(Val(temp));
      if begun || digit != 0 || trailing {
        begun := true;
        ghost var rest := Rest(Val(temp), k - 1, true, trailing);
        assert prefix + (rest + [ZERO + digit]) == prefix + rest + [ZERO + digit];
        ok, next := AddChar(ZERO + digit, output, next, prefix + rest, total);
        if !ok {
          return;
        }
        k := k - 1;
      } else {
        var zero := IsZero(temp);
        if zero {
          RestOfZero(k - 1);
          RestOfNothing(0, false, false);
          k := 0;
        } else {
          k := k - 1;
        }
      }
    }
    RestOfNothing(Scaled(Val(temp), e), begun, trailing);
    ok := true;
  }

  lemma ScaledOne(v: nat)
    ensures Scaled(v, 0) == v
  {
    assert Pow(10, 0) == 1;
  }

  /** The digits in front of the point. */
  method AddInteger(temp: array<uint32>, exponent: nat, output: array<uint8>, position: int, ghost prefix: seq<uint8>,
                    ghost total: seq<uint8>)
    returns (ok: bool, next: int)
    requires Num(temp) && Val(temp) >= 0
    requires Writing(output, position, prefix + Decimal(Scaled(Val(temp), exponent)), total)
    modifies temp, output
    ensures ok ==> Writing(output, next, prefix, total)
    ensures !ok ==> |total| > output.Length && Cleared(output)
  {
    hide Writing, Value, Scaled, Decimal;
    next := position;
    var e := exponent;
    var zero := IsZero(temp);
    if !zero {
      while e > 0
        invariant Num(temp) && Val(temp) > 0 && Writing(output, next, prefix + Decimal(Scaled(Val(temp), e)), total)
      {
        TimesTen(Val(temp), e);
        DecimalStep(Scaled(Val(temp), e));
        ghost var rest := Decimal(Scaled(Val(temp), e - 1));
        assert prefix + (rest + [ZERO]) == prefix + rest + [ZERO];
        ok, next := AddChar(ZERO, output, next, prefix + rest, total);
        if !ok {
          return;
        }
        e := e - 1;
      }
    } else {
      ScaledNothing(e);
    }
    ScaledOne(Val(temp));
    ok, next := AddUnits(temp, output, next, prefix, total);
  }

  lemma ScaledNothing(e: nat)
    ensures Scaled(0, e) == 0
  {}

  method AddUnits(temp: array<uint32>, output: array<uint8>, position: int, ghost prefix: seq<uint8>,
                  ghost total: seq<uint8>)
    returns (ok: bool, next: int)
    requires Num(temp) && Val(temp) >= 0
    requires Writing(output, position, prefix + Decimal(Val(temp)), total)
    modifies temp, output
    ensures ok ==> Writing(output, next, prefix, total)
    ensures !ok ==> |total| > output.Length && Cleared(output)
  {
    hide Writing, Value, Decimal;
    next := position;
    ghost var left: nat := Val(temp);
    while true
      invariant Num(temp) && Val(temp) == left
      invariant Writing(output, next, prefix + Decimal(Val(temp)), total)
      decreases left
    {
      ghost var v: nat := Val(temp);
      DecimalStep(v);
      var digit := LongDivision(temp, 10, temp);
      ghost var rest := if v < 10 then [] else Decimal(v / 10);
      assert prefix + (rest + [ZERO + digit]) == prefix + rest + [ZERO + digit];
      ok, next := AddChar(ZERO + digit, output, next, prefix + rest, total);
      if !ok {
        return;
      }
      var zero := IsZero(temp);
      if zero {
        assert prefix + [] == prefix;
        return;
      }
      left := v / 10;
    }
  }

  /** bn_format: the text and its length, or a cleared buffer and 0 when it does not fit. */
  method BnFormat(amount: array<uint32>, prefix: seq<uint8>, suffix: seq<uint8>, decimals: nat, exponent: int,
                  trailing: bool, output: array<uint8>)
    returns (length: nat)
    requires Num(amount) && Val(amount) >= 0
    modifies output
    ensures var text := Formatted(Val(amount), prefix, suffix, decimals, exponent, trailing);
      if |text| + 1 <= output.Length then length == |text| && output[..|text| + 1] == text + [0]
      else length == 0 && Cleared(output)
  {
    hide Writing, Value, Scaled, Rest, Body, Decimal;
    var temp := new uint32[LIMBS];
    Copy(amount, temp);
    ghost var scaled := Scaled(Val(amount), exponent);
    ghost var body := Body(scaled, decimals, trailing);
    ghost var total := prefix + body + suffix + [0];
    BodyIsRest(scaled, decimals, trailing);
    StartWriting(output, total);
    var ok, position := AddChar(0, output, output.Length, prefix + body + suffix, total);
    if !ok {
      return 0;
    }
    ok, position := AddString(suffix, output, position, prefix + body, total);
    if !ok {
      return 0;
    }
    var e := ScaleDown(temp, exponent);
    var begun;
    ok, position, e, begun := AddFraction(temp, decimals, e, trailing, output, position, prefix, total);
    if !ok {
      return 0;
    }
    ghost var whole := Decimal(Scaled(Val(temp), e));
    if begun {
      assert prefix + (whole + [POINT]) == prefix + whole + [POINT];
      ok, position := AddChar(POINT, output, position, prefix + whole, total);
      if !ok {
        return 0;
      }
    } else {
      assert whole + [] == whole;
    }
    ok, position := AddInteger(temp, e, output, position, prefix, total);
    if !ok {
      return 0;
    }
    assert [] + prefix == prefix;
    ok, position := AddString(prefix, output, position, [], total);
    if !ok {
      return 0;
    }
    length := MoveToStart(output, position, total);
  }

  lemma StartWriting(output: array<uint8>, total: seq<uint8>)
    ensures Writing(output, output.Length, total, total)
  {
    assert total + output[output.Length..] == total;
  }

  /** memmove of the text to the start of the buffer. */
  method MoveToStart(output: array<uint8>, position: int, ghost total: seq<uint8>) returns (length: nat)
    requires Writing(output, position, [], total) && |total| > 0
    modifies output
    ensures |total| <= output.Length && length == |total| - 1 && output[..|total|] == total
  {
    var n := output.Length - position;
    assert [] + output[position..] == output[position..];
    forall i | 0 <= i < n {
      output[i] := output[position + i];
    }
    length := n - 1;
  }

  // --------------------------------------------------------- reading the text

  predicate DigitsOnly(s: seq<uint8>) {
    forall i :: 0 <= i < |s| ==> '0' <= s[i] as char <= '9'
  }

  /** The number that decimal digits stand for. */
  function Read(s: seq<uint8>): int {
    Radix.Number(10, seq(|s|, i requires 0 <= i < |s| => s[i] as int - 48))
  }

  lemma ReadSnoc(s: seq<uint8>, d: uint8)
    ensures Read(s + [d]) == Read(s) * 10 + d as int - 48 && Read([]) == 0
    ensures DigitsOnly(s) && 48 <= d <= 57 ==> DigitsOnly(s + [d])
  {
    var t := s + [d];
    var all := seq(|t|, i requires 0 <= i < |t| => t[i] as int - 48);
    assert all[..|s|] == seq(|s|, i requires 0 <= i < |s| => s[i] as int - 48);
  }

  /** "%d" writes the number, without a leading zero unless it is 0. */
  lemma {:induction false} DecimalReads(n: nat)
    ensures DigitsOnly(Decimal(n)) && Read(Decimal(n)) == n && (n > 0 ==> Decimal(n)[0] != 48)
    ensures n == 0 ==> |Decimal(n)| == 1
  {
    hide Read;
    if n < 10 {
      ReadSnoc([], ZERO + n);
      assert [] + [ZERO + n] == Decimal(n);
    } else {
      DecimalReads(n / 10);
      ReadSnoc(Decimal(n / 10), ZERO + n % 10);
    }
  }

  lemma {:induction false} PaddedReads(v: nat, k: nat)
    ensures DigitsOnly(Padded(v, k)) && Pow(10, k) > 0 && Read(Padded(v, k)) == v % Pow(10, k)
  {
    hide Read;
    PowTen(k);
    if k == 0 {
      ReadSnoc([], 0);
      DivUnique(v, 1, v, 0);
    } else {
      DropDigit(v, k);
      PaddedReads(v / 10, k - 1);
      ReadSnoc(Padded(v / 10, k - 1), ZERO + v % 10);
    }
  }

  /** The digits behind the point and as many zeros as are left out make up the lowest k digits of v. */
  lemma {:induction false} FractionReads(v: nat, k: nat, all: bool)
    ensures var f := Fraction(v, k, all);
      && DigitsOnly(f) && |f| <= k && (all ==> |f| == k) && (!all && f != [] ==> f[|f| - 1] != 48)
      && Pow(10, k) > 0 && Read(f) * Pow(10, k - |f|) == v % Pow(10, k)
    decreases k
  {
    hide Read;
    PowTen(k);
    PaddedReads(v, k);
    PowZero(10);
    if !all {
      FractionEnds(v, k);
    }
    if k > 0 && !all && v % 10 == 0 {
      DropDigit(v, k);
      FractionReads(v / 10, k - 1, false);
      var f := Fraction(v, k, false);
      var g, w := Read(f), v % Pow(10, k);
      assert Pow(10, k - |f|) == 10 * Pow(10, k - 1 - |f|);
      assert w == 10 * (w / 10);
      assert g * Pow(10, k - |f|) == 10 * (g * Pow(10, k - 1 - |f|));
    }
  }

  /** The text is a number between prefix and suffix, with these digits in front of the point and behind it. */
  ghost predicate Reads(text: seq<uint8>, prefix: seq<uint8>, suffix: seq<uint8>, whole: seq<uint8>,
                        fraction: seq<uint8>) {
    && text == prefix + (whole + (if fraction == [] then [] else ['.' as int] + fraction)) + suffix
    && DigitsOnly(whole) && DigitsOnly(fraction) && whole != [] && (whole[0] == '0' as int ==> |whole| == 1)
  }

  /** The digits are v in units of 10^decimals: with all decimals if wanted, and otherwise without zeros at the end. */
  ghost predicate Shows(v: int, decimals: nat, trailing: bool, whole: seq<uint8>, fraction: seq<uint8>) {
    && |fraction| <= decimals && (trailing ==> |fraction| == decimals)
    && (!trailing && fraction != [] ==> fraction[|fraction| - 1] as char != '0')
    && Read(whole) * Pow(10, decimals) + Read(fraction) * Pow(10, decimals - |fraction|) == v
  }

  lemma BodyMeaning(a: nat, decimals: nat, trailing: bool) returns (whole: seq<uint8>, fraction: seq<uint8>)
    ensures Shows(a, decimals, trailing, whole, fraction)
    ensures Reads(Body(a, decimals, trailing), [], [], whole, fraction)
  {
    hide Read, Decimal, Fraction, Pow;
    PowTen(decimals);
    var d := Pow(10, decimals);
    BodyIsRest(a, decimals, trailing);
    whole, fraction := Decimal(NatOver(a, d)), Fraction(a, decimals, trailing);
    DecimalReads(NatOver(a, d));
    FractionReads(a, decimals, trailing);
    assert a == a / d * d + a % d;
    var text := whole + (if fraction == [] then [] else [POINT] + fraction);
    assert [] + text + [] == text;
    assert Rest(a, decimals, false, trailing) == text;
  }

  lemma ScaledMeaning(amount: nat, exponent: int)
    ensures Pow(10, if exponent < 0 then -exponent else 0) > 0
    ensures Scaled(amount, exponent)
         == if exponent >= 0 then amount * Pow(10, exponent) else amount / Pow(10, -exponent)
  {
    PowTen(if exponent < 0 then -exponent else 0);
  }

  /** The text shows amount * 10^exponent, rounded down, between the prefix and the suffix. */
  lemma FormattedMeaning(amount: nat, prefix: seq<uint8>, suffix: seq<uint8>, decimals: nat, exponent: int,
                         trailing: bool)
    ensures Pow(10, if exponent < 0 then -exponent else 0) > 0
    ensures exists whole: seq<uint8>, fraction: seq<uint8> ::
      && Reads(Formatted(amount, prefix, suffix, decimals, exponent, trailing), prefix, suffix, whole, fraction)
      && Shows(if exponent >= 0 then amount * Pow(10, exponent) else amount / Pow(10, -exponent), decimals, trailing,
               whole, fraction)
  {
    hide Pow, Body, Shows, Scaled;
    ScaledMeaning(amount, exponent);
    var a := Scaled(amount, exponent);
    var whole, fraction := BodyMeaning(a, decimals, trailing);
    var text := whole + (if fraction == [] then [] else ['.' as int] + fraction);
    assert [] + text + [] == text;
    assert Reads(Formatted(amount, prefix, suffix, decimals, exponent, trailing), prefix, suffix, whole, fraction);
  }
}
