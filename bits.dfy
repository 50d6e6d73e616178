/**
 * Fixed-width unsigned words as bounded naturals, powers of two, the C++ `int`
 * range, and little-endian decoding of byte sequences.
 */
module Bits {

  type u8 = x: int | 0 <= x < 0x100
  type u16 = x: int | 0 <= x < 0x1_0000
  type u32 = x: int | 0 <= x < 0x1_0000_0000
  type u64 = x: int | 0 <= x < 0x1_0000_0000_0000_0000

  /** 2^32: one 32-bit word. */
  const WORD: nat := 0x1_0000_0000

  const INT32_MIN: int := -0x8000_0000
  const INT32_MAX: int := 0x7FFF_FFFF

  /** The value fits a C++ `int` (32-bit two's complement). */
  predicate InInt32(x: int) {
    INT32_MIN <= x <= INT32_MAX
  }

  function Pow2(n: nat): (r: nat)
    ensures r >= 1
  {
    if n == 0 then 1 else 2 * Pow2(n - 1)
  }

  lemma {:induction false} Pow2Add(a: nat, b: nat)
    ensures Pow2(a + b) == Pow2(a) * Pow2(b)
  {
    if a > 0 {
      Pow2Add(a - 1, b);
    }
  }

  lemma {:induction false} Pow2Monotone(a: nat, b: nat)
    requires a <= b
    ensures Pow2(a) <= Pow2(b)
  {
    if a < b {
      Pow2Monotone(a, b - 1);
    }
  }

  lemma Pow2Table()
    ensures Pow2(10) == 0x400 && Pow2(11) == 0x800
  {
  }

  lemma MulLe(a: nat, b: nat, c: nat)
    requires a <= b
    ensures a * c <= b * c
  {
  }

  lemma MulLt(a: nat, b: nat, c: nat)
    requires a < b && c > 0
    ensures a * c < b * c
  {
  }

  /** Euclidean quotient and remainder are unique. */
  lemma DivModUnique(x: int, d: int, q: int, r: int)
    requires d > 0 && 0 <= r < d && x == q * d + r
    ensures x / d == q && x % d == r
  {
    var t := q - x / d;
    MulSub(q, x / d, d);
    assert t * d == x % d - r;
    if t > 0 {
      MulAtLeast(t, d);
    } else if t < 0 {
      MulAtLeast(-t, d);
    }
  }

  lemma MulSub(a: int, b: int, d: int)
    ensures (a - b) * d == a * d - b * d
  {
  }

  lemma MulAtLeast(t: int, d: int)
    requires t >= 1 && d > 0
    ensures t * d >= d
  {
  }

  /** `bytes[p..p+2]` as a little-endian 16-bit word. */
  function U16At(bytes: seq<u8>, p: nat): u16
    requires p + 2 <= |bytes|
  {
    bytes[p] as int + 0x100 * bytes[p + 1] as int
  }

  /** `bytes[p..p+4]` as a little-endian 32-bit word. */
  function U32At(bytes: seq<u8>, p: nat): u32
    requires p + 4 <= |bytes|
  {
    U16At(bytes, p) + 0x1_0000 * U16At(bytes, p + 2)
  }

  /** `bytes[p..p+8]` as a little-endian 64-bit word. */
  function U64At(bytes: seq<u8>, p: nat): u64
    requires p + 8 <= |bytes|
  {
    U32At(bytes, p) + WORD * U32At(bytes, p + 4)
  }

  /** `bytes[p..p+4]` copied into a C++ `int`: little-endian two's complement. */
  function I32At(bytes: seq<u8>, p: nat): (x: int)
    requires p + 4 <= |bytes|
    ensures InInt32(x)
    ensures x % WORD == U32At(bytes, p)
  {
    var u := U32At(bytes, p);
    if u <= INT32_MAX then u else u - WORD
  }
}
