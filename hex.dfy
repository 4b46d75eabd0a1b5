/**
 * `hex_encode`: each byte as two lower-case hexadecimal digits, high nibble
 * first, the way `format!("{:02x}", b)` writes it. Its partner is the
 * decoding of such a text back to bytes.
 */
module Hex {
  import opened Base

  /** `0`-`9` then `a`-`f`. */
  function HexDigit(n: nat): (c: char)
    requires n < 16
    ensures IsLowerHex(c)
  {
    if n < 10 then '0' + n as char else 'a' + (n - 10) as char
  }

  predicate IsLowerHex(c: char)
  {
    '0' <= c <= '9' || 'a' <= c <= 'f'
  }

  /** The value of a lower-case hexadecimal digit. */
  function DigitValue(c: char): (n: nat)
    requires IsLowerHex(c)
    ensures n < 16
  {
    if c <= '9' then (c - '0') as nat else (c - 'a') as nat + 10
  }

  /** `format!("{:02x}", b)`. */
  function ByteHex(b: byte): string
  {
    [HexDigit(b / 16), HexDigit(b % 16)]
  }

  /** `hex_encode`: the bytes' two-digit forms, in order. */
  function HexEncode(bytes: seq<byte>): string
  {
    if bytes == [] then [] else HexEncode(bytes[..|bytes| - 1]) + ByteHex(bytes[|bytes| - 1])
  }

  /** Two digits back to bytes, pair by pair; `None` for an odd length or a character that is not a lower-case digit. */
  function HexDecode(s: string): Option<seq<byte>>
  {
    if s == [] then Some([])
    else if |s| == 1 || !IsLowerHex(s[0]) || !IsLowerHex(s[1]) then None
    else match HexDecode(s[2..])
      case None => None
      case Some(rest) => Some([(DigitValue(s[0]) * 16 + DigitValue(s[1])) as byte] + rest)
  }

  // ---------------------------------------------------------------------------
  // Properties

  /** The text is twice as long as the bytes and holds only lower-case hexadecimal digits. */
  lemma {:induction false} HexEncodeShape(bytes: seq<byte>)
    ensures |HexEncode(bytes)| == 2 * |bytes|
    ensures forall i :: 0 <= i < |HexEncode(bytes)| ==> IsLowerHex(HexEncode(bytes)[i])
  {
    if bytes != [] {
      HexEncodeShape(bytes[..|bytes| - 1]);
    }
  }

  /** A byte's two digits read back as the byte. */
  lemma ByteHexRoundTrip(b: byte)
    ensures IsLowerHex(ByteHex(b)[0]) && IsLowerHex(ByteHex(b)[1])
    ensures DigitValue(ByteHex(b)[0]) * 16 + DigitValue(ByteHex(b)[1]) == b
  {
    DigitRoundTrip(b / 16);
    DigitRoundTrip(b % 16);
  }

  lemma DigitRoundTrip(n: nat)
    requires n < 16
    ensures DigitValue(HexDigit(n)) == n
  {
  }

  /** Decoding what was encoded gives the bytes back. */
  lemma {:induction false} HexRoundTrip(bytes: seq<byte>)
    ensures HexDecode(HexEncode(bytes)) == Some(bytes)
  {
    if bytes != [] {
      var b, rest := bytes[0], bytes[1..];
      assert bytes == [b] + rest;
      HexRoundTrip(rest);
      HexEncodeCons(b, rest);
      ByteHexRoundTrip(b);
      var s := ByteHex(b) + HexEncode(rest);
      assert s[2..] == HexEncode(rest);
      assert s[0] == ByteHex(b)[0] && s[1] == ByteHex(b)[1];
    }
  }

  /** Encoding works byte by byte from the front too. */
  lemma {:induction false} HexEncodeCons(b: byte, rest: seq<byte>)
    ensures HexEncode([b] + rest) == ByteHex(b) + HexEncode(rest)
    decreases |rest|
  {
    if rest != [] {
      var n := |rest| - 1;
      HexEncodeCons(b, rest[..n]);
      assert ([b] + rest)[..n + 1] == [b] + rest[..n];
    } else {
      assert HexEncode([b]) == HexEncode([]) + ByteHex(b);
    }
  }

  /** Different bytes give different text. */
  lemma HexEncodeInjective(a: seq<byte>, b: seq<byte>)
    requires HexEncode(a) == HexEncode(b)
    ensures a == b
  {
    HexRoundTrip(a);
    HexRoundTrip(b);
  }
}
