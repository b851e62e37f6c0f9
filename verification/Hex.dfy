/** Hexadecimal digits as characters. */
module Hex {
  import opened ModArith

  function HexDigit(d: int): uint8
    requires 0 <= d < 16
  {
    if d < 10 then 48 + d else 87 + d
  }

  /** The value of a digit in either case, or -1. */
  function HexValue(c: uint8): (d: int)
    ensures -1 <= d < 16
  {
    if 48 <= c <= 57 then c - 48
    else if 65 <= c <= 70 then c - 55
    else if 97 <= c <= 102 then c - 87
    else -1
  }

  lemma HexDigitValue(d: int)
    requires 0 <= d < 16
    ensures HexValue(HexDigit(d)) == d
  {}

  /** c is the digit d, in either case. */
  predicate IsDigit(c: uint8, d: int) {
    0 <= d < 16 && (c as char == "0123456789abcdef"[d] || c as char == "0123456789ABCDEF"[d])
  }

  /** Digits are written in lower case, and read in either case. */
  lemma DigitLaw(c: uint8, d: int)
    requires 0 <= d < 16
    ensures HexDigit(d) as char == "0123456789abcdef"[d]
    ensures HexValue(c) == d <==> IsDigit(c, d)
  {}
}
