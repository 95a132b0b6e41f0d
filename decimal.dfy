/**
 * Decimal text for integers: Rust's `str::parse::<iN>()` / `parse::<uN>()`
 * (the `FromStr` implementation of the primitive integer types, radix 10)
 * and `format!("{}", n)` (their `Display` implementation).
 */
module Decimal {
  import opened Wrappers
  import opened MachineInt

  const U64_MAX: int := 0xFFFF_FFFF_FFFF_FFFF

  predicate IsDigit(c: char) {
    '0' <= c <= '9'
  }

  predicate AllDigits(s: string) {
    forall i :: 0 <= i < |s| ==> IsDigit(s[i])
  }

  function DigitValue(c: char): (d: nat)
    requires IsDigit(c)
    ensures d < 10
  {
    c as int - '0' as int
  }

  function DigitChar(d: nat): (c: char)
    requires d < 10
    ensures IsDigit(c) && DigitValue(c) == d
  {
    ('0' as int + d) as char
  }

  /** The number a string of decimal digits denotes (leading zeros allowed). */
  function Value(s: string): nat
    requires AllDigits(s)
  {
    if s == [] then 0 else Value(s[..|s| - 1]) * 10 + DigitValue(s[|s| - 1])
  }

  /** The shortest decimal digit string of a natural number. */
  function Digits(n: nat): (s: string)
    ensures |s| > 0 && AllDigits(s)
  {
    if n < 10 then [DigitChar(n)] else Digits(n / 10) + [DigitChar(n % 10)]
  }

  /** `format!("{}", n)`: a minus sign for negative numbers, then the digits of the magnitude. */
  function Show(n: int): string {
    if n < 0 then "-" + Digits(-n) else Digits(n)
  }

  /**
   * `str::parse` into an integer type whose values are lo..hi. An empty string,
   * a lone sign, a '-' on an unsigned type (lo == 0), a non-digit, or a value
   * outside lo..hi is an error.
   */
  function ParseInt(s: string, lo: int, hi: int): (r: Option<int>)
    ensures r.Some? ==> lo <= r.value <= hi
  {
    if s == [] then None
    else if (s[0] == '+' || s[0] == '-') && |s| == 1 then None
    else
      var negative := s[0] == '-' && lo < 0;
      var digits := if s[0] == '+' || negative then s[1..] else s;
      if !AllDigits(digits) then None
      else
        var v: int := if negative then -(Value(digits) as int) else Value(digits);
        if lo <= v <= hi then Some(v) else None
  }

  function ParseI32(s: string): (r: Option<int>)
    ensures r.Some? ==> IsI32(r.value)
  {
    ParseInt(s, I32_MIN, I32_MAX)
  }

  function ParseU64(s: string): (r: Option<int>)
    ensures r.Some? ==> 0 <= r.value <= U64_MAX
  {
    ParseInt(s, 0, U64_MAX)
  }

  lemma {:induction false} ValueOfDigits(n: nat)
    ensures Value(Digits(n)) == n
  {
    if n >= 10 {
      var s := Digits(n);
      assert s[..|s| - 1] == Digits(n / 10);
      ValueOfDigits(n / 10);
    }
  }

  /** Parsing what `Show` prints gives the number back, for every type whose range holds it. */
  lemma ShowParses(n: int, lo: int, hi: int)
    requires lo <= n <= hi
    ensures ParseInt(Show(n), lo, hi) == Some(n)
  {
    var s := Show(n);
    if n < 0 {
      assert s[1..] == Digits(-n);
      ValueOfDigits(-n);
    } else {
      ValueOfDigits(n);
    }
  }

  /** A successful parse accepts only an optional sign followed by digits. */
  lemma ParsedShape(s: string, lo: int, hi: int)
    requires ParseInt(s, lo, hi).Some?
    ensures |s| > 0
    ensures AllDigits(s) || (|s| > 1 && (s[0] == '+' || s[0] == '-') && AllDigits(s[1..]))
  {
  }
}
