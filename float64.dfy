/**
 * The parts of IEEE 754 binary64 arithmetic that the codec's branches look
 * at, computed on the 64-bit pattern of a float: NaN and infinity tests,
 * negative zero, "integral with magnitude below i32::MAX", Rust's `as f64`
 * cast of a 64-bit integer (round to nearest, ties to even), and the
 * little-endian byte order of `to_le_bytes` / `from_le_bytes`.
 */
module Float64 {
  import opened Base

  const TWO_52: int := 0x10_0000_0000_0000
  const TWO_63: int := 0x8000_0000_0000_0000
  const TWO_64: int := 0x1_0000_0000_0000_0000

  /** The bit pattern of an `f64` (what `f64::to_bits` returns). */
  type F64Bits = b: int | 0 <= b < 0x1_0000_0000_0000_0000

  /** `-0.0`: only the sign bit set. */
  const NEG_ZERO: F64Bits := 0x8000_0000_0000_0000

  /** The largest `i32`, 2147483647; `i32::MAX as f64` is exact. */
  const I32_MAX: int := 0x7FFF_FFFF

  function Exponent(f: F64Bits): nat { (f / TWO_52) % 2048 }
  function Mantissa(f: F64Bits): nat { f % TWO_52 }
  predicate Negative(f: F64Bits) { f >= TWO_63 }

  predicate IsNaN(f: F64Bits) { Exponent(f) == 2047 && Mantissa(f) != 0 }
  predicate IsInfinite(f: F64Bits) { Exponent(f) == 2047 && Mantissa(f) == 0 }
  predicate IsFinite(f: F64Bits) { Exponent(f) != 2047 }

  /**
   * The value of `f` when it is a finite whole number (`f.fract() == 0.0`),
   * and `None` otherwise. A normal number is (2^52 + mantissa) * 2^(e - 1075).
   */
  function IntegralValue(f: F64Bits): Option<int>
  {
    var e, m := Exponent(f), Mantissa(f);
    if e == 2047 then None
    else if e == 0 then (if m == 0 then Some(0) else None)
    else
      var sig := TWO_52 + m;
      var mag :=
        if e >= 1075 then Some(sig * Pow2(e - 1075))
        else if sig % Pow2(1075 - e) == 0 then Some(sig / Pow2(1075 - e))
        else None;
      match mag
      case None => None
      case Some(k) => Some(if Negative(f) then -k else k)
  }

  /**
   * The test of `encode_value` for a float that is stored as an integer:
   * `f.fract() == 0.0 && f.abs() < (i32::MAX as f64)`. The comparison is
   * strict, so +-2147483647.0 fail it.
   */
  predicate SmallIntegral(f: F64Bits)
  {
    IntegralValue(f).Some? && -I32_MAX < IntegralValue(f).value < I32_MAX
  }

  /** The number of binary digits of `m`. */
  function BitLength(m: nat): (n: nat)
    ensures m > 0 ==> n >= 1 && Pow2(n - 1) <= m < Pow2(n)
    ensures m == 0 ==> n == 0
  {
    if m == 0 then 0 else 1 + BitLength(m / 2)
  }

  /**
   * Rust's `x as f64` for a 64-bit integer (`i64` or `u64`): exact below
   * 2^53 in magnitude, otherwise rounded to 53 significant bits, ties to even.
   */
  function IntToF64(x: int): (f: F64Bits)
    requires -TWO_63 <= x < TWO_64
  {
    var m: nat := if x < 0 then -x else x;
    if m == 0 then 0
    else
      var (biased, fraction) := RoundMagnitude(m);
      Pack(x < 0, biased, fraction)
  }

  /**
   * The exponent and fraction fields of the `f64` nearest to `m`: `m` has
   * `n` binary digits; beyond 53 of them the rest `r` of the division is
   * rounded half to even, and a carry out of the significand bumps the exponent.
   */
  function RoundMagnitude(m: nat): (r: (nat, nat))
    requires 0 < m < TWO_64
    ensures r.0 < 2047 && r.1 < TWO_52
  {
    var n := BitLength(m);
    BitLengthAtMost64(m);
    if n <= 53 then
      ScaleIntoBinade(m, n);
      (n + 1022, m * Pow2(53 - n) - TWO_52)
    else
      var sh: nat := n - 53;
      var q, r, half := m / Pow2(sh), m % Pow2(sh), Pow2(sh - 1);
      QuotientInBinade(m, n);
      var q' := if r > half || (r == half && q % 2 == 1) then q + 1 else q;
      if q' == 2 * TWO_52 then (n + 1023, 0) else (n + 1022, q' - TWO_52)
  }

  /** The pattern with the given sign, biased exponent and fraction fields. */
  function Pack(negative: bool, biased: nat, fraction: nat): (f: F64Bits)
    requires biased < 2048 && fraction < TWO_52
    ensures Exponent(f) == biased && Mantissa(f) == fraction && Negative(f) == negative
  {
    var g := biased * TWO_52 + fraction;
    assert g < 2048 * TWO_52 by {
      MulMonotone(biased, 2047, TWO_52);
    }
    assert g / TWO_52 == biased && g % TWO_52 == fraction by {
      DivMod(g, TWO_52, biased, fraction);
    }
    if negative then TWO_63 + g else g
  }

  lemma DivMod(g: int, d: int, q: int, r: int)
    requires d > 0 && 0 <= r < d && g == q * d + r
    ensures g / d == q && g % d == r
  {
    var q', r' := g / d, g % d;
    assert g == q' * d + r';
    if q' > q {
      MulMonotoneInt(q + 1, q', d);
    } else if q' < q {
      MulMonotoneInt(q' + 1, q, d);
    }
  }

  lemma MulMonotoneInt(a: int, b: int, c: int)
    requires a <= b && c >= 0
    ensures a * c <= b * c
  {
  }

  lemma BitLengthAtMost64(m: nat)
    requires 0 < m < TWO_64
    ensures BitLength(m) <= 64
  {
    var n := BitLength(m);
    if n > 64 {
      Pow2Monotone(64, n - 1);
      Pow2Sixty();
    }
  }

  lemma ScaleIntoBinade(m: nat, n: nat)
    requires 1 <= n <= 53 && Pow2(n - 1) <= m < Pow2(n)
    ensures TWO_52 <= m * Pow2(53 - n) < 2 * TWO_52
  {
    Pow2Add(n - 1, 53 - n);
    Pow2Add(n, 53 - n);
    Pow2Sixty();
    MulMonotone(Pow2(n - 1), m, Pow2(53 - n));
    MulStrict(m, Pow2(n), Pow2(53 - n));
  }

  lemma QuotientInBinade(m: nat, n: nat)
    requires 53 < n && Pow2(n - 1) <= m < Pow2(n)
    ensures TWO_52 <= m / Pow2(n - 53) < 2 * TWO_52
  {
    var d := Pow2(n - 53);
    Pow2Add(52, n - 53);
    Pow2Add(53, n - 53);
    Pow2Sixty();
    assert Pow2(n - 1) == TWO_52 * d;
    assert Pow2(n) == 2 * TWO_52 * d;
    DivBounds(m, d, TWO_52);
  }

  lemma DivBounds(m: nat, d: nat, k: nat)
    requires d > 0 && k * d <= m < 2 * k * d
    ensures k <= m / d < 2 * k
  {
    var q := m / d;
    assert m == q * d + m % d;
    if q < k {
      MulMonotone(q + 1, k, d);
    }
    if q >= 2 * k {
      MulMonotone(2 * k, q, d);
    }
  }

  lemma DivLess(x: nat, d: nat, k: nat)
    requires d > 0 && x < d * k
    ensures x / d < k
  {
    if x / d >= k {
      MulMonotone(k, x / d, d);
    }
  }

  lemma MulMonotone(a: nat, b: nat, c: nat)
    requires a <= b
    ensures a * c <= b * c
  {
  }

  lemma MulStrict(a: nat, b: nat, c: nat)
    requires a < b && c > 0
    ensures a * c < b * c
  {
  }

  lemma Pow2Sixty()
    ensures Pow2(8) == 0x100 && Pow2(16) == 0x1_0000 && Pow2(32) == 0x1_0000_0000
    ensures Pow2(52) == TWO_52 && Pow2(53) == 2 * TWO_52 && Pow2(63) == TWO_63 && Pow2(64) == TWO_64
  {
    Pow2Doubling(4, 16);
    Pow2Doubling(8, 0x100);
    Pow2Doubling(16, 0x1_0000);
    Pow2Sum(32, 16, 0x1_0000_0000, 0x1_0000);
    Pow2Sum(48, 4, 0x1_0000_0000_0000, 16);
    Pow2Sum(52, 1, TWO_52, 2);
    Pow2Sum(53, 10, 2 * TWO_52, 0x400);
    Pow2Sum(63, 1, TWO_63, 2);
  }

  /** `x.to_le_bytes()` for an `n`-byte unsigned integer: least significant byte first. */
  function LeBytes(x: nat, n: nat): (r: seq<byte>)
    ensures |r| == n
  {
    if n == 0 then [] else [x % 256] + LeBytes(x / 256, n - 1)
  }

  /** `from_le_bytes` read as an unsigned integer. */
  function FromLe(bytes: seq<byte>): nat
  {
    if bytes == [] then 0 else bytes[0] + 256 * FromLe(bytes[1..])
  }

  lemma {:induction false} FromLeBytes(x: nat, n: nat)
    requires x < Pow2(8 * n)
    ensures FromLe(LeBytes(x, n)) == x
  {
    if n > 0 {
      var w := Pow2(8 * (n - 1));
      ByteWeight(n);
      DivLess(x, 256, w);
      FromLeBytes(x / 256, n - 1);
      var bs := LeBytes(x, n);
      assert bs[0] == x % 256 && bs[1..] == LeBytes(x / 256, n - 1);
      FromLeCons(bs);
    }
  }

  lemma {:induction false} FromLeBound(bytes: seq<byte>)
    ensures FromLe(bytes) < Pow2(8 * |bytes|)
  {
    if bytes != [] {
      FromLeBound(bytes[1..]);
      ByteWeight(|bytes|);
      FromLeCons(bytes);
    }
  }

  /** One byte more multiplies the range by 256. */
  lemma ByteWeight(n: nat)
    requires n > 0
    ensures Pow2(8 * n) == 256 * Pow2(8 * (n - 1))
  {
    assert Pow2(8) == 256;
    Pow2Sum(8, 8 * (n - 1), 256, Pow2(8 * (n - 1)));
  }

  lemma FromLeCons(bytes: seq<byte>)
    requires bytes != []
    ensures FromLe(bytes) == bytes[0] + 256 * FromLe(bytes[1..])
  {
  }
}
