/**
 * Go's 64-bit `int` and the two conversions of `strconv` that the task file
 * relies on: `Itoa` (used for the ID column) and `Atoi` (used to read it back,
 * and to read the ID argument of `complete` and `delete`).
 */
module Decimal {
  import opened Wrappers

  const MinInt64: int := -0x8000_0000_0000_0000
  const MaxInt64: int := 0x7FFF_FFFF_FFFF_FFFF

  /** Go's `int` on a 64-bit platform. */
  newtype int64 = x: int | -0x8000_0000_0000_0000 <= x <= 0x7FFF_FFFF_FFFF_FFFF

  predicate IsDigit(c: char) { '0' <= c <= '9' }

  predicate AllDigits(s: string) { forall i | 0 <= i < |s| :: IsDigit(s[i]) }

  function DigitChar(d: nat): (c: char)
    requires d < 10
    ensures IsDigit(c)
  {
    ('0' as int + d) as char
  }

  function DigitValue(c: char): (d: nat)
    requires IsDigit(c)
    ensures d < 10 && DigitChar(d) == c
  {
    c as int - '0' as int
  }

  /** The number a string of decimal digits denotes, most significant digit first. */
  function DigitsValue(s: string): nat
    requires AllDigits(s)
  {
    if s == [] then 0 else DigitsValue(s[..|s| - 1]) * 10 + DigitValue(s[|s| - 1])
  }

  /** The shortest decimal form of a natural number. */
  function NatToString(n: nat): (s: string)
    ensures |s| > 0 && AllDigits(s)
  {
    if n < 10 then [DigitChar(n)] else NatToString(n / 10) + [DigitChar(n % 10)]
  }

  /** `strconv.Itoa`: decimal, with a leading '-' for negative numbers. */
  function Itoa(n: int64): (s: string)
    ensures |s| > 0
    ensures n >= 0 <==> IsDigit(s[0])
    ensures n < 0 ==> s[0] == '-'
  {
    if n < 0 then "-" + NatToString(-(n as int)) else NatToString(n as int)
  }

  /**
   * `strconv.Atoi`: an optional '+' or '-' followed by at least one decimal
   * digit (no spaces, no underscores), whose value fits in 64 bits; anything
   * else is a syntax or range error.
   */
  function Atoi(s: string): Option<int64>
  {
    var signed := |s| > 0 && (s[0] == '+' || s[0] == '-');
    var digits := if signed then s[1..] else s;
    if digits == [] || !AllDigits(digits) then None
    else
      var v := if signed && s[0] == '-' then -(DigitsValue(digits) as int) else DigitsValue(digits);
      if MinInt64 <= v <= MaxInt64 then Some(v as int64) else None
  }

  lemma {:induction false} NatToStringValue(n: nat)
    ensures DigitsValue(NatToString(n)) == n
  {
    var s := NatToString(n);
    if n >= 10 {
      NatToStringValue(n / 10);
      assert s[..|s| - 1] == NatToString(n / 10);
    }
  }

  /** Reading back what `Itoa` wrote gives the same number, for every int64. */
  lemma AtoiItoa(n: int64)
    ensures Atoi(Itoa(n)) == Some(n)
  {
    NatToStringValue(if n < 0 then -(n as int) else n as int);
    if n < 0 {
      assert Itoa(n)[1..] == NatToString(-(n as int));
    }
  }

  /** `Atoi` accepts a string only if it starts with a sign or a digit and has a digit at the end. */
  lemma AtoiShape(s: string)
    requires Atoi(s).Some?
    ensures |s| > 0 && (s[0] in "+-" || IsDigit(s[0])) && IsDigit(s[|s| - 1])
  {
    var signed := |s| > 0 && (s[0] == '+' || s[0] == '-');
    var digits := if signed then s[1..] else s;
    assert digits[|digits| - 1] == s[|s| - 1];
  }

  /** Values outside 64 bits are refused (Go's range error); -2^63 itself is accepted. */
  lemma AtoiRejectsOverflow(s: string)
    requires AllDigits(s) && DigitsValue(s) > MaxInt64
    ensures Atoi(s) == None && Atoi("+" + s) == None
    ensures Atoi("-" + s) == None <==> DigitsValue(s) > -MinInt64
  {
    assert ("-" + s)[1..] == s;
    assert ("+" + s)[1..] == s;
  }
}
