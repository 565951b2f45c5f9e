/** Decimal integer literals: how a number is rendered as a string (`String(n)`,
    the hash field under which a record id is stored) and how a string is read
    back as a number. Only integers are modelled; fractions, exponents,
    surrounding white space, hexadecimal and `Infinity` are not. */
module Numerals {

  datatype Option<T> = None | Some(value: T)

  predicate IsDigit(c: char) {
    '0' <= c <= '9'
  }

  predicate AllDigits(s: string) {
    forall i :: 0 <= i < |s| ==> IsDigit(s[i])
  }

  function DigitValue(c: char): nat
    requires IsDigit(c)
  {
    c as int - '0' as int
  }

  function DigitChar(d: nat): (c: char)
    requires d < 10
    ensures IsDigit(c) && DigitValue(c) == d
  {
    ('0' as int + d) as char
  }

  /** The value of a string of decimal digits, most significant first. */
  function DigitsValue(s: string): nat
    requires AllDigits(s)
  {
    if s == [] then 0 else DigitsValue(s[..|s| - 1]) * 10 + DigitValue(s[|s| - 1])
  }

  /** `String(n)` for a non-negative integer: shortest decimal form. */
  function NatToString(n: nat): (s: string)
    ensures |s| > 0 && AllDigits(s)
    ensures |s| > 1 ==> s[0] != '0'
  {
    if n < 10 then [DigitChar(n)] else NatToString(n / 10) + [DigitChar(n % 10)]
  }

  /** `String(n)` for any integer. */
  function IntToString(n: int): string {
    if n < 0 then "-" + NatToString(-n) else NatToString(n)
  }

  /** Splits an optional leading sign off a string. */
  function SplitSign(s: string): (r: (bool, string))
    ensures |r.1| <= |s|
  {
    if |s| > 0 && s[0] == '-' then (true, s[1..])
    else if |s| > 0 && s[0] == '+' then (false, s[1..])
    else (false, s)
  }

  function Signed(negative: bool, n: nat): int {
    if negative then -(n as int) else n
  }

  /** The whole string is an optional sign followed by one or more digits. */
  function ParseInteger(s: string): Option<int> {
    var (negative, rest) := SplitSign(s);
    if |rest| > 0 && AllDigits(rest) then Some(Signed(negative, DigitsValue(rest))) else None
  }

  /** The number of digits at the front of a string. */
  function LeadingDigits(s: string): (n: nat)
    ensures n <= |s| && AllDigits(s[..n])
    ensures n < |s| ==> !IsDigit(s[n])
  {
    if s == [] || !IsDigit(s[0]) then 0
    else
      var n := 1 + LeadingDigits(s[1..]);
      assert s[..n] == [s[0]] + s[1..][..n - 1];
      n
  }

  /** An optional sign followed by at least one digit at the front of the
      string, read as an integer; the rest of the string is ignored, as
      `parseInt` and `parseFloat` do. None stands for NaN. */
  function ParseIntegerPrefix(s: string): Option<int> {
    var (negative, rest) := SplitSign(s);
    var n := LeadingDigits(rest);
    if n > 0 then Some(Signed(negative, DigitsValue(rest[..n]))) else None
  }

  lemma {:induction false} DigitsValueOfNatToString(n: nat)
    ensures DigitsValue(NatToString(n)) == n
  {
    var s := NatToString(n);
    if n < 10 {
      assert s[..|s| - 1] == [];
    } else {
      assert s[..|s| - 1] == NatToString(n / 10);
      DigitsValueOfNatToString(n / 10);
    }
  }

  /** Reading back a rendered integer gives the integer. */
  lemma ParseIntegerOfIntToString(n: int)
    ensures ParseInteger(IntToString(n)) == Some(n)
  {
    if n < 0 {
      assert SplitSign(IntToString(n)) == (true, NatToString(-n));
      DigitsValueOfNatToString(-n);
    } else {
      var s := NatToString(n);
      assert IsDigit(s[0]);
      assert SplitSign(s) == (false, s);
      DigitsValueOfNatToString(n);
    }
  }

  /** Distinct integers render as distinct strings. */
  lemma IntToStringInjective(m: int, n: int)
    ensures IntToString(m) == IntToString(n) ==> m == n
  {
    ParseIntegerOfIntToString(m);
    ParseIntegerOfIntToString(n);
  }

  lemma {:induction false} LeadingDigitsOfDigits(s: string)
    requires AllDigits(s)
    ensures LeadingDigits(s) == |s|
  {
    if s != [] {
      LeadingDigitsOfDigits(s[1..]);
    }
  }

  /** Where the whole string is an integer literal, reading its prefix gives
      the same integer. */
  lemma PrefixOfInteger(s: string)
    requires ParseInteger(s).Some?
    ensures ParseIntegerPrefix(s) == ParseInteger(s)
  {
    var (negative, rest) := SplitSign(s);
    LeadingDigitsOfDigits(rest);
    assert rest[..|rest|] == rest;
  }
}
