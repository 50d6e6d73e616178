/**
 * IEEE 754 binary64 (`double`) and binary32 (`float`) values as raw bit
 * patterns, with the comparisons the C++ operators perform on them: every
 * comparison involving a NaN is false, and +0 equals -0.
 */
module Ieee {
  import opened Bits

  type F64 = u64
  type F32 = u32

  /** Bit pattern of +0.0 (double). */
  const F64_ZERO: F64 := 0

  const SIGN64: nat := 0x8000_0000_0000_0000
  const FRAC64: nat := 0x10_0000_0000_0000   // 2^52, one unit of the binary64 exponent field

  const SIGN32: nat := 0x8000_0000
  const FRAC32: nat := 0x80_0000             // 2^23, one unit of the binary32 exponent field

  predicate IsNaN64(x: F64) {
    (x / FRAC64) % 0x800 == 0x7FF && x % FRAC64 != 0
  }

  predicate IsNaN32(x: F32) {
    (x / FRAC32) % 0x100 == 0xFF && x % FRAC32 != 0
  }

  /**
   * A key whose integer order is the numeric order of non-NaN doubles:
   * the magnitude bits for positive values, their negation for negative ones
   * (so that -0 and +0 both map to 0).
   */
  function OrderKey(x: F64): int {
    var magnitude := x % SIGN64;
    if x < SIGN64 then magnitude else -magnitude
  }

  /** C++ `x <= y` on doubles. */
  predicate LessEq(x: F64, y: F64) {
    !IsNaN64(x) && !IsNaN64(y) && OrderKey(x) <= OrderKey(y)
  }

  /** C++ `x < y` on doubles. */
  predicate Less(x: F64, y: F64) {
    !IsNaN64(x) && !IsNaN64(y) && OrderKey(x) < OrderKey(y)
  }

  /** C++ `x >= y` on doubles. */
  predicate GreaterEq(x: F64, y: F64) {
    LessEq(y, x)
  }

  /** C++ `x == y` on floats. */
  predicate FloatEq(x: F32, y: F32) {
    !IsNaN32(x) && !IsNaN32(y) && (x == y || (x % SIGN32 == 0 && y % SIGN32 == 0))
  }

  /** On non-NaN doubles the comparison is total: a failed `>=` is a `<`. */
  lemma NotGreaterEqIsLess(x: F64, y: F64)
    requires !IsNaN64(x) && !IsNaN64(y)
    ensures !GreaterEq(x, y) <==> Less(x, y)
  {
  }

  lemma LessEqTransitive(x: F64, y: F64, z: F64)
    requires LessEq(x, y) && LessEq(y, z)
    ensures LessEq(x, z)
  {
  }

  /** A float equals itself exactly when it is not a NaN. */
  lemma FloatEqReflexive(x: F32)
    ensures FloatEq(x, x) <==> !IsNaN32(x)
  {
  }

  /** Float equality differs from bit equality only on NaNs and on the two zeros. */
  lemma FloatEqIsBitEquality(x: F32, y: F32)
    requires !IsNaN32(x) && !IsNaN32(y)
    requires x % SIGN32 != 0 || y % SIGN32 != 0
    ensures FloatEq(x, y) <==> x == y
  {
  }
}
