/**
 * Unsigned LEB128 varints (section 7.6 of the DWARF v4 standard): seven
 * data bits per byte, least significant group first, with the
 * continuation bit 0x80 set on every byte except the last.
 *
 * `Leb128` and `ReadLeb128` are the specifications; `EncodeVarint` and
 * `DecodeVarint` are the loops of utils.rs, proved against them.
 */
module Varint {
  import opened Base

  /** The LEB128 encoding of `v`. */
  function Leb128(v: nat): (r: seq<byte>)
    ensures |r| >= 1
    ensures |r| == 1 <==> v < 128
    decreases v
  {
    if v < 128 then [v] else [v % 128 + 128] + Leb128(v / 128)
  }

  /**
   * What the decoding loop reports. `ShiftOverflow` is the case where the
   * loop reaches a sixth byte: the source then shifts a `u32` by 35, which
   * panics in a build with overflow checks and is masked to a shift by 3 in
   * a release build. The model stops there and follows neither.
   */
  datatype VarintRead = Read(value: u32, consumed: nat) | ShiftOverflow

  /** The number of bytes the decoding loop looks at: up to and including the first byte below 0x80. */
  function ScanLength(bytes: seq<byte>): (n: nat)
    ensures n <= |bytes|
  {
    if bytes == [] then 0 else if bytes[0] < 128 then 1 else 1 + ScanLength(bytes[1..])
  }

  /** The little-endian base-128 number made of the low seven bits of every byte. */
  function Payload(bytes: seq<byte>): nat
  {
    if bytes == [] then 0 else bytes[0] % 128 + 128 * Payload(bytes[1..])
  }

  /**
   * The result of `decode_varint`: the payload of the scanned bytes, cut to
   * 32 bits (the fifth byte's high data bits are shifted out of the `u32`).
   * A missing or truncated varint is not an error: it decodes to the
   * partial value.
   */
  function ReadLeb128(bytes: seq<byte>): (r: VarintRead)
    ensures r.Read? ==> r.consumed <= |bytes|
    ensures bytes == [] ==> r == Read(0, 0)
  {
    var n := ScanLength(bytes);
    if n > 5 then ShiftOverflow else Read(Payload(bytes[..n]) % U32_LIMIT, n)
  }

  /** `encode_varint` (utils.rs): the loop that shifts `val` right by seven until it is zero. */
  method EncodeVarint(value: u32) returns (out: seq<byte>)
    ensures out == Leb128(value)
  {
    var val: nat := value;
    out := [];
    while true
      invariant out + Leb128(val) == Leb128(value)
      decreases val
    {
      var b := val % 128;
      var rest := val / 128;
      if rest > 0 {
        b := b + 128;
        assert out + Leb128(val) == (out + [b]) + Leb128(rest);
      } else {
        assert Leb128(val) == [b];
      }
      out := out + [b];
      val := rest;
      if val == 0 {
        break;
      }
    }
  }

  /** `decode_varint` (utils.rs): accumulates seven bits per byte until a byte below 0x80. */
  method DecodeVarint(bytes: seq<byte>) returns (r: VarintRead)
    ensures r == ReadLeb128(bytes)
  {
    var val: nat := 0;
    var shift: nat := 0;
    var i: nat := 0;
    while i < |bytes|
      invariant i <= |bytes| && i <= 5 && shift == 7 * i
      invariant forall j :: 0 <= j < i ==> bytes[j] >= 128
      invariant val == Payload(bytes[..i]) % U32_LIMIT
      invariant Payload(bytes[..i]) < Pow2(shift)
      decreases |bytes| - i
    {
      if shift >= 32 {
        // `((byte & 0x7F) as u32) << 35` overflows the shift amount.
        ScanLengthAllContinuing(bytes, i);
        return ShiftOverflow;
      }
      var byte := bytes[i];
      PayloadSnoc(bytes[..i], byte);
      assert bytes[..i + 1] == bytes[..i] + [byte];
      AccumulateStep(Payload(bytes[..i]), byte % 128, i);
      val := val + (byte % 128) * Pow2(shift) % U32_LIMIT;
      i := i + 1;
      if byte < 128 {
        ScanLengthStops(bytes, i - 1);
        return Read(val, i);
      }
      shift := shift + 7;
    }
    ScanLengthAllContinuing(bytes, i);
    assert bytes[..i] == bytes;
    return Read(val, i);
  }

  lemma {:induction false} PayloadSnoc(s: seq<byte>, b: byte)
    ensures Payload(s + [b]) == Payload(s) + (b % 128) * Pow2(7 * |s|)
    decreases |s|
  {
    if s == [] {
      assert [b][1..] == [];
    } else {
      var c, t := b % 128, s[1..];
      var w := Pow2(7 * |t|);
      assert (s + [b])[1..] == t + [b] && (s + [b])[0] == s[0];
      PayloadSnoc(t, b);
      PayloadCons(s + [b]);
      PayloadCons(s);
      assert Pow2(7 * |s|) == 128 * w by {
        assert Pow2(7) == 128;
        Pow2Sum(7, 7 * |t|, 128, w);
      }
      ScaleShift(Payload(t), c, w);
    }
  }

  lemma PayloadCons(s: seq<byte>)
    requires s != []
    ensures Payload(s) == s[0] % 128 + 128 * Payload(s[1..])
  {
  }

  lemma ScaleShift(p: nat, c: nat, q: nat)
    ensures 128 * (p + c * q) == 128 * p + c * (128 * q)
  {
  }

  lemma Pow2Table()
    ensures Pow2(7) == 0x80 && Pow2(14) == 0x4000 && Pow2(21) == 0x20_0000
    ensures Pow2(28) == 0x1000_0000 && Pow2(35) == 0x8_0000_0000
  {
    assert Pow2(7) == 0x80;
    Pow2Sum(7, 7, 0x80, 0x80);
    Pow2Sum(14, 7, 0x4000, 0x80);
    Pow2Sum(21, 7, 0x20_0000, 0x80);
    Pow2Sum(28, 7, 0x1000_0000, 0x80);
  }

  /** One step of the accumulation: or-ing a seven-bit group into the `u32` at shift 7i (i < 5). */
  lemma AccumulateStep(p: nat, c: nat, i: nat)
    requires i < 5 && c < 128 && p < Pow2(7 * i)
    ensures p % U32_LIMIT + c * Pow2(7 * i) % U32_LIMIT == (p + c * Pow2(7 * i)) % U32_LIMIT
    ensures p + c * Pow2(7 * i) < Pow2(7 * (i + 1))
  {
    Weight(i);
    AccumulateAt(p, c, Pow2(7 * i));
  }

  /** The weight 2^(7i) of the i-th group, for the five groups a `u32` spans. */
  lemma Weight(i: nat)
    requires i < 5
    ensures var q := Pow2(7 * i); q == 1 || q == 0x80 || q == 0x4000 || q == 0x20_0000 || q == 0x1000_0000
    ensures Pow2(7 * (i + 1)) == 128 * Pow2(7 * i)
  {
    Pow2Table();
    if i == 0 {
      assert Pow2(7 * i) == 1 && Pow2(7 * (i + 1)) == 0x80;
    } else if i == 1 {
      assert Pow2(7 * i) == 0x80 && Pow2(7 * (i + 1)) == 0x4000;
    } else if i == 2 {
      assert Pow2(7 * i) == 0x4000 && Pow2(7 * (i + 1)) == 0x20_0000;
    } else if i == 3 {
      assert Pow2(7 * i) == 0x20_0000 && Pow2(7 * (i + 1)) == 0x1000_0000;
    } else {
      assert Pow2(7 * i) == 0x1000_0000 && Pow2(7 * (i + 1)) == 0x8_0000_0000;
    }
  }

  /** `AccumulateStep` with the weight `q` = 2^(7i) written out. */
  lemma AccumulateAt(p: nat, c: nat, q: nat)
    requires q == 1 || q == 0x80 || q == 0x4000 || q == 0x20_0000 || q == 0x1000_0000
    requires c < 128 && p < q
    ensures p % U32_LIMIT + c * q % U32_LIMIT == (p + c * q) % U32_LIMIT
    ensures p + c * q < 128 * q
  {
    ProductBelow(c, q);
    if q < 0x1000_0000 {
      BelowLimit(p);
      BelowLimit(c * q);
      BelowLimit(p + c * q);
    } else {
      var h, l := c / 16, c % 16;
      HighGroup(c);
      WrapMultiple(l * q, h);
      WrapMultiple(p + l * q, h);
      BelowLimit(p);
    }
  }

  lemma ProductBelow(c: nat, q: nat)
    requires c < 128
    ensures c * q <= 127 * q
  {
  }

  /** The fifth group's bits above the 32nd fall out of the `u32`. */
  lemma HighGroup(c: nat)
    requires c < 128
    ensures c * 0x1000_0000 == (c / 16) * U32_LIMIT + (c % 16) * 0x1000_0000
    ensures (c % 16) * 0x1000_0000 < U32_LIMIT
  {
  }

  lemma BelowLimit(x: nat)
    requires x < U32_LIMIT
    ensures x % U32_LIMIT == x
  {
  }

  /** Whole multiples of 2^32 vanish from a `u32`. */
  lemma WrapMultiple(x: nat, h: nat)
    requires x < U32_LIMIT
    ensures (x + h * U32_LIMIT) % U32_LIMIT == x
  {
  }

  lemma ScanLengthAllContinuing(bytes: seq<byte>, i: nat)
    requires i <= |bytes|
    requires forall j :: 0 <= j < i ==> bytes[j] >= 128
    ensures ScanLength(bytes) >= i
    ensures i < |bytes| ==> ScanLength(bytes) > i
    ensures i == |bytes| ==> ScanLength(bytes) == i
  {
    if i > 0 {
      ScanLengthAllContinuing(bytes[1..], i - 1);
    }
  }

  lemma ScanLengthStops(bytes: seq<byte>, k: nat)
    requires k < |bytes| && bytes[k] < 128
    requires forall j :: 0 <= j < k ==> bytes[j] >= 128
    ensures ScanLength(bytes) == k + 1
  {
    if k > 0 {
      ScanLengthStops(bytes[1..], k - 1);
    }
  }

  /** Worked values of the encoder: 0, 127, 128 and 300. */
  lemma Leb128Examples()
    ensures Leb128(0) == [0] && Leb128(127) == [127]
    ensures Leb128(128) == [0x80, 0x01] && Leb128(300) == [0xAC, 0x02]
  {
  }

  /** Every byte but the last carries the continuation bit; the last does not. */
  lemma {:induction false} Leb128Shape(v: nat)
    ensures Leb128(v)[|Leb128(v)| - 1] < 128
    ensures forall j :: 0 <= j < |Leb128(v)| - 1 ==> Leb128(v)[j] >= 128
    decreases v
  {
    if v >= 128 {
      Leb128Shape(v / 128);
    }
  }

  /** The decoder reads back exactly the payload the encoder wrote. */
  lemma {:induction false} PayloadOfLeb128(v: nat)
    ensures Payload(Leb128(v)) == v
    decreases v
  {
    if v >= 128 {
      PayloadOfLeb128(v / 128);
      assert Leb128(v)[1..] == Leb128(v / 128);
    }
  }

  /** A `u32` needs at most five bytes. */
  lemma {:induction false} Leb128Length(v: nat, k: nat)
    requires 1 <= k && v < Pow2(7 * k)
    ensures |Leb128(v)| <= k
    decreases k
  {
    if v >= 128 {
      Pow2Add(7, 7 * (k - 1));
      assert Pow2(7) == 128;
      assert k > 1;
      Leb128Length(v / 128, k - 1);
    }
  }

  lemma Leb128AtMostFive(v: u32)
    ensures |Leb128(v)| <= 5
  {
    Pow2Table();
    Leb128Length(v, 5);
  }

  /**
   * Round trip: decoding the encoding of a `u32`, followed by any bytes,
   * gives the value back and consumes exactly the encoding.
   */
  lemma Leb128RoundTrip(v: u32, rest: seq<byte>)
    ensures ReadLeb128(Leb128(v) + rest) == Read(v, |Leb128(v)|)
  {
    var e := Leb128(v);
    var bytes := e + rest;
    Leb128AtMostFive(v);
    Leb128Shape(v);
    ScanLengthStops(bytes, |e| - 1);
    assert bytes[..|e|] == e;
    PayloadOfLeb128(v);
  }

  /**
   * `decode_varint` stops at the first byte whose high bit is clear, and
   * consumes that byte; without such a byte it consumes the whole input.
   * It overflows exactly when the first five bytes all carry the
   * continuation bit and a sixth byte follows.
   */
  lemma {:induction false} ScanLengthIsFirstTerminator(bytes: seq<byte>)
    ensures forall j :: 0 <= j < ScanLength(bytes) - 1 ==> bytes[j] >= 128
    ensures (0 < ScanLength(bytes) && bytes[ScanLength(bytes) - 1] < 128)
         || (ScanLength(bytes) == |bytes| && forall j :: 0 <= j < |bytes| ==> bytes[j] >= 128)
  {
    if bytes != [] && bytes[0] >= 128 {
      ScanLengthIsFirstTerminator(bytes[1..]);
    }
  }

  lemma ReadLeb128Overflow(bytes: seq<byte>)
    ensures ReadLeb128(bytes) == ShiftOverflow
        <==> |bytes| >= 6 && forall j :: 0 <= j < 5 ==> bytes[j] >= 128
  {
    ScanLengthIsFirstTerminator(bytes);
    if |bytes| >= 6 && forall j :: 0 <= j < 5 ==> bytes[j] >= 128 {
      ScanLengthAllContinuing(bytes, 5);
    }
  }
}
