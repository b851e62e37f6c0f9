/** Positional notation in any base, most significant digit first. */
module Radix {
  import opened ModArith

  /** The number that a digit string stands for. */
  function Number(b: nat, s: seq<int>): int {
    if s == [] then 0 else Number(b, s[..|s| - 1]) * b + s[|s| - 1]
  }

  ghost predicate Digits(b: nat, s: seq<int>) {
    forall i :: 0 <= i < |s| ==> 0 <= s[i] < b
  }

  /** The shortest digit string for v. */
  function Shortest(b: nat, v: nat): (s: seq<int>)
    requires b > 1
    ensures Digits(b, s)
    decreases v
  {
    if v == 0 then [] else
      QuotientSmaller(b, v);
      Shortest(b, v / b) + [v % b]
  }

  lemma QuotientSmaller(b: nat, v: nat)
    requires b > 1 && v > 0
    ensures 0 <= v / b < v && 0 <= v % b < b && v == v / b * b + v % b
  {
    if v / b >= v {
      MulMonotone(v, v / b, b);
      MulMonotone(2, b, v);
    }
  }

  lemma Snoc(b: nat, s: seq<int>, d: int)
    ensures Number(b, s + [d]) == Number(b, s) * b + d
  {
    assert (s + [d])[..|s|] == s;
  }

  lemma {:induction false} Split(b: nat, s: seq<int>, k: nat)
    requires k <= |s|
    ensures Number(b, s) == Number(b, s[..k]) * Pow(b, |s| - k) + Number(b, s[k..])
  {
    hide Pow;
    if k == |s| {
      assert s[..k] == s && s[k..] == [];
      NextPlace(0, b, 0);
    } else {
      var n := |s| - 1;
      Split(b, s[..n], k);
      assert s[..n][..k] == s[..k] && s[k..][..n - k] == s[..n][k..];
      NextPlace(Number(b, s[..k]), b, n - k);
    }
  }

  lemma NextPlace(a: int, b: nat, n: nat)
    ensures a * Pow(b, n + 1) == a * Pow(b, n) * b && Pow(b, 0) == 1
  {}

  /** Adding a digit at the front. */
  lemma Cons(b: nat, s: seq<int>, k: nat)
    requires k < |s|
    ensures Number(b, s[k..]) == s[k] * Pow(b, |s| - k - 1) + Number(b, s[k + 1..])
  {
    var t := s[k..];
    Split(b, t, 1);
    assert t[..1] == [s[k]] && t[1..] == s[k + 1..];
    Snoc(b, [], s[k]);
    assert [] + [s[k]] == [s[k]];
  }

  lemma {:induction false} Bound(b: nat, s: seq<int>)
    requires Digits(b, s)
    ensures 0 <= Number(b, s) < Pow(b, |s|)
  {
    hide Pow;
    if s != [] {
      var n := |s| - 1;
      Bound(b, s[..n]);
      NextDigitFits(Number(b, s[..n]), s[n], b, Pow(b, n));
      NextPlace(1, b, n);
    } else {
      NextPlace(1, b, 0);
    }
  }

  lemma NextDigitFits(v: int, d: int, b: int, p: int)
    requires 0 <= v < p && 0 <= d < b
    ensures 0 <= v * b + d < p * b
  {
    MulMonotone(v, p - 1, b);
    MulMonotone(0, v, b);
  }

  /** Digit strings of one length are determined by their value. */
  lemma {:induction false} Unique(b: nat, s: seq<int>, t: seq<int>)
    requires |s| == |t| && Digits(b, s) && Digits(b, t) && Number(b, s) == Number(b, t)
    ensures s == t
  {
    if s != [] {
      var n := |s| - 1;
      DivUnique(Number(b, s), b, Number(b, s[..n]), s[n]);
      DivUnique(Number(b, s), b, Number(b, t[..n]), t[n]);
      Unique(b, s[..n], t[..n]);
      assert s == s[..n] + [s[n]] && t == t[..n] + [t[n]];
    }
  }

  lemma {:induction false} LeadingZerosVanish(b: nat, s: seq<int>, k: nat)
    requires k <= |s| && forall i :: 0 <= i < k ==> s[i] == 0
    ensures Number(b, s) == Number(b, s[k..])
    decreases k
  {
    if k == 0 {
      assert s[0..] == s;
    } else {
      LeadingZerosVanish(b, s, k - 1);
      Cons(b, s, k - 1);
      assert s[k - 1] == 0;
    }
  }

  /** Without a leading zero, a digit string is the shortest one for its value. */
  lemma {:induction false} ShortestIs(b: nat, s: seq<int>)
    requires b > 1 && Digits(b, s) && (s != [] ==> s[0] != 0)
    ensures Number(b, s) >= 0 && Shortest(b, Number(b, s)) == s
    decreases |s|
  {
    if s != [] {
      var n := |s| - 1;
      ShortestIs(b, s[..n]);
      var v := Number(b, s);
      Positive(b, s);
      DivUnique(v, b, Number(b, s[..n]), s[n]);
      assert s == s[..n] + [s[n]];
    }
  }

  lemma Positive(b: nat, s: seq<int>)
    requires b > 1 && Digits(b, s) && s != [] && s[0] != 0
    ensures Number(b, s) > 0
  {
    Cons(b, s, 0);
    assert s[0..] == s;
    Bound(b, s[1..]);
    PowPositive(b, |s| - 1);
    MulMonotone(1, s[0], Pow(b, |s| - 1));
  }

  lemma {:induction false} ShortestValue(b: nat, v: nat)
    requires b > 1
    ensures Number(b, Shortest(b, v)) == v
    ensures Shortest(b, v) != [] ==> Shortest(b, v)[0] != 0
    ensures Shortest(b, v) == [] <==> v == 0
    decreases v
  {
    if v != 0 {
      QuotientSmaller(b, v);
      ShortestValue(b, v / b);
      Snoc(b, Shortest(b, v / b), v % b);
    }
  }

  /** How many zeros a string begins with. */
  function LeadingZeros(s: seq<int>): (k: nat)
    ensures k <= |s| && (forall i :: 0 <= i < k ==> s[i] == 0) && (k < |s| ==> s[k] != 0)
  {
    if s == [] || s[0] != 0 then 0 else 1 + LeadingZeros(s[1..])
  }

  lemma LeadingZerosIs(s: seq<int>, k: nat)
    requires k <= |s| && (forall i :: 0 <= i < k ==> s[i] == 0) && (k < |s| ==> s[k] != 0)
    ensures LeadingZeros(s) == k
  {}

  // ------------------------------------------- multiplying in place, from the last digit up

  /** The number formed by the digits from index j on. */
  ghost function Tail(b: nat, s: seq<int>, j: nat): int
    requires j <= |s|
  {
    Number(b, s[j..])
  }

  lemma TailStep(b: nat, s: seq<int>, t: seq<int>, j: nat)
    requires j < |s| == |t| && forall k :: j < k < |s| ==> s[k] == t[k]
    ensures Tail(b, t, j) == t[j] * Pow(b, |s| - j - 1) + Tail(b, s, j + 1)
  {
    Cons(b, t, j);
    assert t[j + 1..] == s[j + 1..];
  }

  lemma TailEnds(b: nat, s: seq<int>, j: nat)
    requires j <= |s| && forall k :: 0 <= k < j ==> s[k] == 0
    ensures Tail(b, s, |s|) == 0 && Tail(b, s, j) == Number(b, s)
  {
    assert s[|s|..] == [];
    LeadingZerosVanish(b, s, j);
  }

  /** Before the first digit nothing has been multiplied and the carry is what is to be added. */
  lemma ScaleNothing(b: nat, m: int, s: seq<int>, add: int)
    ensures Tail(b, s, |s|) + add * Pow(b, 0) == m * Tail(b, s, |s|) + add
  {
    TailEnds(b, s, 0);
  }

  /** One digit of old * m + add: s becomes t at index j, and the carry c becomes carry. */
  lemma ScaleDigit(b: nat, m: int, before: seq<int>, s: seq<int>, t: seq<int>, j: nat, add: int, c: int, carry: int)
    requires j < |before| == |s| == |t| && before[j] == s[j] && (forall k :: j < k < |s| ==> s[k] == t[k])
    requires c + m * s[j] == carry * b + t[j]
    requires Tail(b, s, j + 1) + c * Pow(b, |s| - 1 - j) == m * Tail(b, before, j + 1) + add
    ensures Tail(b, t, j) + carry * Pow(b, |s| - j) == m * Tail(b, before, j) + add
  {
    hide Pow, Tail;
    var n := |s|;
    TailStep(b, s, t, j);
    TailStep(b, before, before, j);
    NextPlace(1, b, n - 1 - j);
    ScalePlaces(b, m, Pow(b, n - 1 - j), Tail(b, s, j + 1), Tail(b, before, j + 1), c, add, t[j], before[j], carry);
  }

  lemma ScalePlaces(b: int, m: int, p: int, low: int, before: int, c: int, add: int, digit: int, d: int, carry: int)
    requires c + m * d == carry * b + digit && low + c * p == m * before + add
    ensures digit * p + low + carry * (p * b) == m * (d * p + before) + add
  {
    assert (c + m * d) * p == c * p + m * (d * p);
    assert (carry * b + digit) * p == carry * (p * b) + digit * p;
  }

  /** After the last digit. */
  lemma ScaleEnd(b: nat, m: int, before: seq<int>, t: seq<int>, add: int, carry: int)
    requires |before| == |t| && Tail(b, t, 0) + carry * Pow(b, |t|) == m * Tail(b, before, 0) + add
    ensures Number(b, t) + carry * Pow(b, |t|) == m * Number(b, before) + add
  {
    hide Pow, Number;
    TailEnds(b, t, 0);
    TailEnds(b, before, 0);
  }

  lemma NoCarry(carry: int, p: int, low: int, v: int)
    requires low + carry * p == v < p && low >= 0 && carry >= 0 && p > 0
    ensures carry == 0
  {
    if carry > 0 {
      MulMonotone(1, carry, p);
    }
  }

  /** The first digit decides whether a number is below a multiple of its place. */
  lemma FrontDigit(b: nat, s: seq<int>, q: int)
    requires Digits(b, s) && s != [] && b > 0
    ensures s[0] < q <==> Number(b, s) < q * Pow(b, |s| - 1)
  {
    hide Pow, Number;
    Cons(b, s, 0);
    assert s[0..] == s;
    Bound(b, s[1..]);
    FrontPlace(s[0], q, Pow(b, |s| - 1), Number(b, s[1..]));
  }

  lemma FrontPlace(d: int, q: int, p: int, low: int)
    requires 0 <= low < p
    ensures d < q <==> d * p + low < q * p
  {
    if d < q {
      MulMonotone(d + 1, q, p);
    } else {
      MulMonotone(q, d, p);
    }
  }

  /** More digits never make a number smaller. */
  lemma {:induction false} PrefixLe(b: nat, s: seq<int>, k: nat)
    requires b > 0 && Digits(b, s) && k <= |s|
    ensures Number(b, s[..k]) <= Number(b, s)
    decreases |s|
  {
    if k == |s| {
      assert s[..k] == s;
    } else {
      var n := |s| - 1;
      PrefixLe(b, s[..n], k);
      assert s[..n][..k] == s[..k];
      Bound(b, s[..n]);
      MulMonotone(1, b, Number(b, s[..n]));
    }
  }
}
