/**
 * UTF-8, as Rust's `str::as_bytes` produces it and `String::from_utf8`
 * accepts it: one to four bytes per Unicode scalar value, with overlong
 * forms, surrogates and code points above U+10FFFF rejected.
 */
module Utf8 {
  import opened Base

  /** The bytes of one character. */
  function EncodeChar(c: char): (r: seq<byte>)
    ensures 1 <= |r| <= 4
  {
    var cp := c as int;
    var q1 := cp / 64;
    var q2 := q1 / 64;
    var q3 := q2 / 64;
    if cp < 0x80 then [cp]
    else if cp < 0x800 then [0xC0 + q1, 0x80 + cp % 64]
    else if cp < 0x1_0000 then [0xE0 + q2, 0x80 + q1 % 64, 0x80 + cp % 64]
    else [0xF0 + q3, 0x80 + q2 % 64, 0x80 + q1 % 64, 0x80 + cp % 64]
  }

  /** `s.as_bytes()`. */
  function Encode(s: string): (r: seq<byte>)
    ensures |r| >= |s|
  {
    if s == [] then [] else EncodeChar(s[0]) + Encode(s[1..])
  }

  predicate IsContinuation(b: byte) { 0x80 <= b < 0xC0 }

  /** A code point that `char` can hold: not a surrogate, at most U+10FFFF. */
  predicate IsScalar(cp: int) { 0 <= cp < 0xD800 || 0xE000 <= cp < 0x11_0000 }

  /** How many bytes a sequence starting with `b` has, or 0 when `b` cannot start one. */
  function SequenceLength(b: byte): (n: nat)
    ensures n <= 4
  {
    if b < 0x80 then 1
    else if 0xC0 <= b < 0xE0 then 2
    else if 0xE0 <= b < 0xF0 then 3
    else if 0xF0 <= b < 0xF8 then 4
    else 0
  }

  /** The code point bits a lead byte of an `n`-byte sequence carries. */
  function LeadBits(b: byte, n: nat): int
  {
    if n == 1 then b else if n == 2 then b - 0xC0 else if n == 3 then b - 0xE0 else b - 0xF0
  }

  /** The smallest code point that takes `n` bytes: anything below it in `n` bytes is overlong. */
  function Shortest(n: nat): int
  {
    if n <= 1 then 0 else if n == 2 then 0x80 else if n == 3 then 0x800 else 0x1_0000
  }

  /** Appends the six data bits of each continuation byte `bytes[i..n]` to `acc`; `None` at a byte that is not one. */
  function Continuations(bytes: seq<byte>, i: nat, n: nat, acc: int): Option<int>
    requires i <= n <= |bytes|
    decreases n - i
  {
    if i == n then Some(acc)
    else if !IsContinuation(bytes[i]) then None
    else Continuations(bytes, i + 1, n, acc * 64 + (bytes[i] - 0x80))
  }

  /** The first character of `bytes` and its length in bytes, if the bytes start with a valid sequence. */
  function DecodeFirst(bytes: seq<byte>): (r: Option<(char, nat)>)
    requires bytes != []
    ensures r.Some? ==> 1 <= r.value.1 <= |bytes|
  {
    var n := SequenceLength(bytes[0]);
    if n == 0 || |bytes| < n then None
    else
      match Continuations(bytes, 1, n, LeadBits(bytes[0], n))
      case None => None
      case Some(cp) => if cp < Shortest(n) || !IsScalar(cp) then None else Some((cp as char, n))
  }

  /** `String::from_utf8(bytes)`: the string, or `None` when the bytes are not valid UTF-8. */
  function Decode(bytes: seq<byte>): Option<string>
    decreases |bytes|, 1
  {
    if bytes == [] then Some([]) else DecodeChars(bytes)
  }

  /** `Decode` of non-empty bytes: the first character, then the rest. */
  function DecodeChars(bytes: seq<byte>): Option<string>
    requires bytes != []
    decreases |bytes|, 0
  {
    match DecodeFirst(bytes)
    case None => None
    case Some((c, n)) =>
      match Decode(bytes[n..])
      case None => None
      case Some(rest) => Some([c] + rest)
  }

  lemma DecodeFirstOfEncodeChar(c: char, rest: seq<byte>)
    ensures DecodeFirst(EncodeChar(c) + rest) == Some((c, |EncodeChar(c)|))
  {
    var cp := c as int;
    if cp < 0x80 {
      DecodeOneByte(c, rest);
    } else if cp < 0x800 {
      DecodeTwoBytes(c, rest);
    } else if cp < 0x1_0000 {
      DecodeThreeBytes(c, rest);
    } else {
      DecodeFourBytes(c, rest);
    }
  }

  lemma DecodeOneByte(c: char, rest: seq<byte>)
    requires c as int < 0x80
    ensures DecodeFirst(EncodeChar(c) + rest) == Some((c, 1))
  {
    var bytes := EncodeChar(c) + rest;
    assert bytes[0] == c as int;
    assert Continuations(bytes, 1, 1, c as int) == Some(c as int);
  }

  lemma DecodeTwoBytes(c: char, rest: seq<byte>)
    requires 0x80 <= c as int < 0x800
    ensures DecodeFirst(EncodeChar(c) + rest) == Some((c, 2))
  {
    var cp := c as int;
    var q1 := cp / 64;
    var bytes := EncodeChar(c) + rest;
    assert bytes[0] == 0xC0 + q1 && bytes[1] == 0x80 + cp % 64;
    assert Continuations(bytes, 2, 2, cp) == Some(cp);
  }

  lemma DecodeThreeBytes(c: char, rest: seq<byte>)
    requires 0x800 <= c as int < 0x1_0000
    ensures DecodeFirst(EncodeChar(c) + rest) == Some((c, 3))
  {
    var cp := c as int;
    var q1 := cp / 64;
    var q2 := q1 / 64;
    var bytes := EncodeChar(c) + rest;
    assert bytes[0] == 0xE0 + q2 && bytes[1] == 0x80 + q1 % 64 && bytes[2] == 0x80 + cp % 64;
    assert Continuations(bytes, 3, 3, cp) == Some(cp);
    assert Continuations(bytes, 2, 3, q1) == Some(cp);
  }

  lemma DecodeFourBytes(c: char, rest: seq<byte>)
    requires 0x1_0000 <= c as int
    ensures DecodeFirst(EncodeChar(c) + rest) == Some((c, 4))
  {
    var cp := c as int;
    var q1 := cp / 64;
    var q2 := q1 / 64;
    var q3 := q2 / 64;
    var bytes := EncodeChar(c) + rest;
    assert bytes[0] == 0xF0 + q3 && bytes[1] == 0x80 + q2 % 64;
    assert bytes[2] == 0x80 + q1 % 64 && bytes[3] == 0x80 + cp % 64;
    assert Continuations(bytes, 4, 4, cp) == Some(cp);
    assert Continuations(bytes, 3, 4, q1) == Some(cp);
    assert Continuations(bytes, 2, 4, q2) == Some(cp);
  }

  /** Decoding the bytes of a string gives the string back. */
  lemma {:induction false} DecodeEncode(s: string)
    ensures Decode(Encode(s)) == Some(s)
  {
    if s != [] {
      var e := EncodeChar(s[0]);
      DecodeFirstOfEncodeChar(s[0], Encode(s[1..]));
      assert (e + Encode(s[1..]))[|e|..] == Encode(s[1..]);
      DecodeEncode(s[1..]);
      assert s == [s[0]] + s[1..];
    }
  }

  lemma EncodeAppend(a: string, b: string)
    ensures Encode(a + b) == Encode(a) + Encode(b)
  {
    if a != [] {
      assert (a + b)[0] == a[0] && (a + b)[1..] == a[1..] + b;
      EncodeAppend(a[1..], b);
    } else {
      assert a + b == b;
    }
  }
}
