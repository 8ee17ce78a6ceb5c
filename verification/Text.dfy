/**
 Octet strings as they travel on the wire, and the decimal numbers printed into them.

 An octet is modelled as a `char`, so that protocol keywords can be written as string
 literals. Nothing depends on an upper bound for a character code: every statement is about
 arbitrary sequences of characters, and so in particular about octets.
 */
module Text {
  import opened Wrappers

  type bytes = string

  type u32 = n: int | 0 <= n < 0x1_0000_0000
  type u64 = n: int | 0 <= n < 0x1_0000_0000_0000_0000

  const CR := '\r'
  const LF := '\n'
  const CRLF: bytes := "\r\n"

  predicate StartsWith(s: bytes, prefix: bytes) {
    prefix <= s
  }

  predicate EndsWithCRLF(s: bytes) {
    |s| >= 2 && s[|s| - 2] == CR && s[|s| - 1] == LF
  }

  function Lower(c: char): char {
    if 'A' <= c <= 'Z' then (c as int + 32) as char else c
  }

  /** Two characters are the same but for case exactly if they are equal or the two cases of one of the
      26 ASCII letters, by their codes. */
  lemma LowerIff(c: char, d: char)
    ensures Lower(c) == Lower(d) <==>
            || c == d
            || (65 <= c as int <= 90 && d as int == c as int + 32)
            || (65 <= d as int <= 90 && c as int == d as int + 32)
  {
  }

  /** `eq_ignore_ascii_case`. */
  predicate EqIgnoringCase(s: bytes, t: bytes) {
    |s| == |t| && forall i :: 0 <= i < |s| ==> Lower(s[i]) == Lower(t[i])
  }

  // ------------------------------------------------------------------ Decimal numbers

  predicate IsDigit(c: char) {
    '0' <= c <= '9'
  }

  predicate AllDigits(s: bytes) {
    forall i :: 0 <= i < |s| ==> IsDigit(s[i])
  }

  function Digit(d: nat): (c: char)
    requires d < 10
    ensures IsDigit(c) && DigitValue(c) == d
  {
    '0' + d as char
  }

  function DigitValue(c: char): (d: nat)
    requires IsDigit(c)
    ensures d < 10
  {
    c as int - '0' as int
  }

  /** What Rust's `{}` prints for an unsigned integer. */
  function Decimal(n: nat): (s: bytes)
    ensures s != [] && AllDigits(s)
  {
    if n < 10 then [Digit(n)] else Decimal(n / 10) + [Digit(n % 10)]
  }

  /** The number a digit string denotes. */
  function Value(s: bytes): nat
    requires AllDigits(s)
  {
    if s == [] then 0 else 10 * Value(s[..|s| - 1]) + DigitValue(s[|s| - 1])
  }

  lemma {:induction false} DecimalReadsBack(n: nat)
    ensures Value(Decimal(n)) == n
  {
    if n >= 10 {
      DecimalReadsBack(n / 10);
      assert Decimal(n)[..|Decimal(n)| - 1] == Decimal(n / 10);
    }
  }

  lemma DecimalInjective(m: nat, n: nat)
    requires Decimal(m) == Decimal(n)
    ensures m == n
  {
    DecimalReadsBack(m);
    DecimalReadsBack(n);
  }

  /** Rust's `str::parse::<u32>`: one optional `+`, then digits that fit. */
  function ParseU32(s: bytes): (r: Option<u32>)
  {
    var digits := if StartsWith(s, "+") then s[1..] else s;
    if digits == [] || !AllDigits(digits) || Value(digits) >= 0x1_0000_0000 then None
    else Some(Value(digits))
  }

  lemma ParseU32OfDecimal(n: u32)
    ensures ParseU32(Decimal(n)) == Some(n)
  {
    DecimalReadsBack(n);
    assert IsDigit(Decimal(n)[0]);
  }
}
