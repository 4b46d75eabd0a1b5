/**
 * Shared primitive types of the TENS codec model: bytes, the unsigned
 * 32-bit integer range, the `as u32` cast, Option and Result types, and
 * small facts about powers of two and sequences.
 */
module Base {

  /** A Rust `u8`. */
  type byte = b: int | 0 <= b < 0x100

  /** 2^32, one more than the largest Rust `u32`. */
  const U32_LIMIT: int := 0x1_0000_0000

  /** A Rust `u32`. */
  type u32 = n: int | 0 <= n < U32_LIMIT

  /** Rust's `n as u32` on a `usize`: keeps the low 32 bits. */
  function U32(n: nat): (r: u32)
    ensures n < U32_LIMIT ==> r == n
  {
    n % U32_LIMIT
  }

  /** 2^k. */
  function Pow2(k: nat): (r: nat)
    ensures r >= 1
  {
    if k == 0 then 1 else 2 * Pow2(k - 1)
  }

  lemma Pow2Add(a: nat, b: nat)
    ensures Pow2(a + b) == Pow2(a) * Pow2(b)
  {
    if a > 0 {
      Pow2Add(a - 1, b);
    }
  }

  lemma Pow2Doubling(a: nat, x: nat)
    requires Pow2(a) == x
    ensures Pow2(a + a) == x * x
  {
    Pow2Add(a, a);
  }

  lemma Pow2Sum(a: nat, b: nat, x: nat, y: nat)
    requires Pow2(a) == x && Pow2(b) == y
    ensures Pow2(a + b) == x * y
  {
    Pow2Add(a, b);
  }

  lemma Pow2Monotone(a: nat, b: nat)
    requires a <= b
    ensures Pow2(a) <= Pow2(b)
  {
    if a < b {
      Pow2Monotone(a, b - 1);
    }
  }

  datatype Option<+T> = None | Some(value: T)

  datatype Result<+T, +E> = Ok(value: T) | Err(error: E)

  /** No element occurs twice. */
  predicate Distinct<T(==)>(s: seq<T>)
  {
    forall i, j :: 0 <= i < j < |s| ==> s[i] != s[j]
  }

  /** The index of the first occurrence of `x` in `s`. */
  function Position<T(==)>(s: seq<T>, x: T): (i: nat)
    requires x in s
    ensures i < |s| && s[i] == x
    ensures forall j :: 0 <= j < i ==> s[j] != x
  {
    if s[0] == x then 0 else 1 + Position(s[1..], x)
  }
}
