/**
 * Decimal text of Swift's 64-bit `Int`: `Int(_ description: String)`, which
 * the parser uses to read `Content-Length`, and string interpolation
 * `"\(n)"`, which the server uses for the status code and the body length.
 */
module Numbers {
  import opened Wrappers

  const Int64Min: int := -0x8000_0000_0000_0000
  const Int64Max: int := 0x7FFF_FFFF_FFFF_FFFF

  predicate InInt64(n: int) {
    Int64Min <= n <= Int64Max
  }

  predicate IsDigit(c: char) {
    '0' <= c <= '9'
  }

  predicate AllDigits(s: string) {
    forall k :: 0 <= k < |s| ==> IsDigit(s[k])
  }

  function DigitValue(c: char): nat
    requires IsDigit(c)
  {
    c as int - '0' as int
  }

  function DigitChar(d: nat): (c: char)
    requires d < 10
    ensures IsDigit(c) && DigitValue(c) == d
  {
    ('0' as int + d) as char
  }

  /** The value of a run of decimal digits, most significant first. */
  function DigitsValue(s: string): nat
    requires AllDigits(s)
  {
    if s == [] then 0 else 10 * DigitsValue(s[..|s| - 1]) + DigitValue(s[|s| - 1])
  }

  /** `Int(s)`: an optional `+` or `-`, then one or more ASCII digits and
      nothing else; a value outside the 64-bit range gives nil. */
  function ParseInt(s: string): (r: Option<int>)
    ensures r.Some? ==> InInt64(r.value)
    ensures r.Some? ==> s != [] && (AllDigits(s) || ((s[0] == '+' || s[0] == '-') && AllDigits(s[1..])))
  {
    var signed := s != [] && (s[0] == '+' || s[0] == '-');
    var digits := if signed then s[1..] else s;
    if digits == [] || !AllDigits(digits) then None
    else
      var magnitude: int := DigitsValue(digits);
      var v: int := if signed && s[0] == '-' then -magnitude else magnitude;
      if InInt64(v) then Some(v) else None
  }

  /** Decimal digits of a natural number, without leading zeros. */
  function NatToString(n: nat): string
  {
    if n < 10 then [DigitChar(n)] else NatToString(n / 10) + [DigitChar(n % 10)]
  }

  /** `"\(n)"`. */
  function IntToString(n: int): string
  {
    if n < 0 then "-" + NatToString(-n) else NatToString(n)
  }

  lemma {:induction false} NatToStringDigits(n: nat)
    ensures NatToString(n) != [] && AllDigits(NatToString(n))
    ensures DigitsValue(NatToString(n)) == n
  {
    if n >= 10 {
      NatToStringDigits(n / 10);
      var s := NatToString(n);
      assert s[..|s| - 1] == NatToString(n / 10);
    }
  }

  /** Reading back a printed 64-bit integer gives that integer. */
  lemma {:induction false} ParseIntToString(n: int)
    requires InInt64(n)
    ensures ParseInt(IntToString(n)) == Some(n)
  {
    if n < 0 {
      ParseNegative(n);
    } else {
      ParseNonNegative(n);
    }
  }

  lemma {:induction false} ParseNegative(n: int)
    requires InInt64(n) && n < 0
    ensures ParseInt(IntToString(n)) == Some(n)
  {
    NatToStringDigits(-n);
    ParseMinusDigits(NatToString(-n));
  }

  lemma {:induction false} ParseNonNegative(n: int)
    requires InInt64(n) && n >= 0
    ensures ParseInt(IntToString(n)) == Some(n)
  {
    NatToStringDigits(n);
    ParseDigits(NatToString(n));
  }

  /** A minus sign and a non-empty run of digits reads as the negated value. */
  lemma ParseMinusDigits(digits: string)
    requires digits != [] && AllDigits(digits) && InInt64(-(DigitsValue(digits) as int))
    ensures ParseInt("-" + digits) == Some(-(DigitsValue(digits) as int))
  {
    var s := "-" + digits;
    assert s[0] == '-' && s[1..] == digits;
  }

  /** A non-empty run of digits reads as its value. */
  lemma ParseDigits(digits: string)
    requires digits != [] && AllDigits(digits) && InInt64(DigitsValue(digits))
    ensures ParseInt(digits) == Some(DigitsValue(digits))
  {
    assert IsDigit(digits[0]);
  }

  /** Text that is not an optionally signed run of digits is not a number:
      in particular the empty string, a lone sign and anything with spaces. */
  lemma ParseIntRejects(s: string)
    requires s == [] || s == "+" || s == "-" || ' ' in s
    ensures ParseInt(s) == None
  {
  }
}
