/**
 * Decimal integers in text, as Rust's standard library writes and reads
 * them: `to_string` on an integer, and `parse::<u32>`, `parse::<usize>`
 * and `parse::<i64>` (`from_str_radix` with radix 10). A parse accepts one
 * optional sign (`-` only for a signed type), then one or more ASCII
 * digits, and fails when the value is out of the type's range.
 */
module Decimal {
  import opened Base
  import opened Float64

  /** `usize` on the `wasm32` target the package is built for. */
  const USIZE_LIMIT: int := U32_LIMIT

  predicate IsDigit(c: char)
  {
    '0' <= c <= '9'
  }

  predicate AllDigits(d: string)
  {
    forall i :: 0 <= i < |d| ==> IsDigit(d[i])
  }

  function DigitChar(n: nat): (c: char)
    requires n < 10
    ensures IsDigit(c)
  {
    ('0' as int + n) as char
  }

  function DigitValue(c: char): nat
    requires IsDigit(c)
  {
    c as int - '0' as int
  }

  /** The number the digits `d` spell, most significant first. */
  function DigitsValue(d: string): nat
    requires AllDigits(d)
  {
    if d == [] then 0 else 10 * DigitsValue(d[..|d| - 1]) + DigitValue(d[|d| - 1])
  }

  /** `n.to_string()` for an unsigned integer: no sign, no leading zero. */
  function DecimalString(n: nat): string
  {
    if n < 10 then [DigitChar(n)] else DecimalString(n / 10) + [DigitChar(n % 10)]
  }

  /** `i.to_string()` for a signed integer. */
  function IntString(i: int): string
  {
    if i < 0 then "-" + DecimalString(-i) else DecimalString(i)
  }

  /** The digit run of a parse: at least one digit, all digits, below `limit`. */
  function ParseDigits(t: string, limit: nat): (r: Option<nat>)
  {
    if t != [] && AllDigits(t) && DigitsValue(t) < limit then Some(DigitsValue(t)) else None
  }

  /** `t.parse::<u32>()` (`limit` 2^32) and `t.parse::<usize>()` (`limit` `USIZE_LIMIT`). */
  function ParseUnsigned(t: string, limit: nat): (r: Option<nat>)
  {
    if t != [] && t[0] == '+' then ParseDigits(t[1..], limit) else ParseDigits(t, limit)
  }

  /** `t.parse::<i64>()`. */
  function ParseI64(t: string): (r: Option<int>)
  {
    if t == [] then None
    else if t[0] == '-' then
      match ParseDigits(t[1..], TWO_63 + 1)
      case None => None
      case Some(n) => Some(-(n as int))
    else if t[0] == '+' then
      match ParseDigits(t[1..], TWO_63)
      case None => None
      case Some(n) => Some(n)
    else ParseDigits(t, TWO_63)
  }

  // ---------------------------------------------------------------------------
  // Reading back what `to_string` writes

  /** `DecimalString(n)` is a non-empty run of digits spelling `n`. */
  lemma {:induction false} DecimalStringDigits(n: nat)
    ensures |DecimalString(n)| >= 1 && AllDigits(DecimalString(n))
    ensures DigitsValue(DecimalString(n)) == n
  {
    if n >= 10 {
      DecimalStringDigits(n / 10);
      var d := DecimalString(n);
      assert d[..|d| - 1] == DecimalString(n / 10);
    }
  }

  /** An unsigned parse reads back `n.to_string()`. */
  lemma ParseUnsignedDecimal(n: nat, limit: nat)
    requires n < limit
    ensures ParseUnsigned(DecimalString(n), limit) == Some(n)
  {
    DecimalStringDigits(n);
  }

  /** `parse::<i64>` reads back `i.to_string()` for every `i64`. */
  lemma ParseI64IntString(i: int)
    requires -TWO_63 <= i < TWO_63
    ensures ParseI64(IntString(i)) == Some(i)
  {
    if i < 0 {
      DecimalStringDigits(-i);
      ParseNegative(DecimalString(-i), -i);
    } else {
      DecimalStringDigits(i);
      ParseNonNegative(DecimalString(i), i);
    }
  }

  /** A minus sign and a digit run spelling `n`, with `n` at most 2^63, parse to `-n`. */
  lemma ParseNegative(d: string, n: nat)
    requires d != [] && AllDigits(d) && DigitsValue(d) == n <= TWO_63
    ensures ParseI64("-" + d) == Some(-(n as int))
  {
    assert ("-" + d)[1..] == d;
  }

  /** A digit run spelling `n` below 2^63 parses to `n`. */
  lemma ParseNonNegative(d: string, n: nat)
    requires d != [] && AllDigits(d) && DigitsValue(d) == n < TWO_63
    ensures ParseI64(d) == Some(n)
  {
    assert IsDigit(d[0]);
  }

  /** What `to_string` writes starts with a digit or a minus sign, never a quote, `@` or `_`. */
  lemma IntStringStart(i: int)
    ensures |IntString(i)| >= 1
    ensures IntString(i)[0] == '-' || IsDigit(IntString(i)[0])
  {
    if i < 0 {
      DecimalStringDigits(-i);
    } else {
      DecimalStringDigits(i);
    }
  }

  /** A parse rejects a string with a character that is neither a digit nor a sign. */
  lemma ParseRejectsNonDigit(t: string, j: nat, limit: nat)
    requires j < |t| && !IsDigit(t[j]) && t[j] != '+' && t[j] != '-'
    ensures ParseUnsigned(t, limit).None? && ParseI64(t).None?
  {
    if t[0] == '+' || t[0] == '-' {
      assert j > 0 && t[1..][j - 1] == t[j];
    }
  }
}
