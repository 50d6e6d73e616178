/**
 * DoubleFromHalf: widening of an IEEE 754 binary16 bit pattern to the binary64
 * bit pattern of the same value (section 3.4 of IEEE 754-2008 gives both
 * interchange encodings).
 */
module Half {
  import opened Bits
  import opened Ieee

  /** Offset of a 10-bit binary16 fraction inside the 52-bit binary64 fraction field: 2^42. */
  const FRACTION_SHIFT: nat := 0x400_0000_0000

  function HalfSign(h: u16): nat { h / 0x8000 }
  function HalfExponent(h: u16): nat { (h / 0x400) % 0x20 }
  function HalfFraction(h: u16): nat { h % 0x400 }

  /** The binary64 pattern with the given sign, biased exponent and fraction fields. */
  function DoubleBits(sign: nat, exponent: nat, fraction: nat): F64
    requires sign < 2 && exponent < 0x800 && fraction < FRAC64
  {
    sign * SIGN64 + exponent * FRAC64 + fraction
  }

  /** Position of the most significant one bit of x. */
  function LeadingBit(x: nat): (p: nat)
    requires x >= 1
    ensures Pow2(p) <= x < Pow2(p + 1)
  {
    if x == 1 then 0 else LeadingBit(x / 2) + 1
  }

  lemma LeadingBitUnique(x: nat, a: nat, b: nat)
    requires Pow2(a) <= x < Pow2(a + 1)
    requires Pow2(b) <= x < Pow2(b + 1)
    ensures a == b
  {
    if a < b {
      Pow2Monotone(a + 1, b);
    } else if b < a {
      Pow2Monotone(b + 1, a);
    }
  }

  /**
   * A nonzero subnormal fraction f shifted left by 10 - LeadingBit(f) lands in
   * [0x400, 0x800): its leading one becomes the hidden bit at position 10.
   */
  lemma SubnormalSignificand(f: nat)
    requires 1 <= f < 0x400
    ensures LeadingBit(f) < 10
    ensures 0x400 <= f * Pow2(10 - LeadingBit(f)) < 0x800
  {
    var p := LeadingBit(f);
    Pow2Table();
    if p >= 10 {
      Pow2Monotone(10, p);
    }
    var m := Pow2(10 - p);
    Pow2Add(p, 10 - p);
    Pow2Add(p + 1, 10 - p);
    MulLe(Pow2(p), f, m);
    MulLt(f, Pow2(p + 1), m);
  }

  /**
   * Shifting f left by k puts its leading one at position 10 exactly when
   * k == 10 - LeadingBit(f).
   */
  lemma ShiftToHiddenBit(f: nat, k: nat)
    requires 1 <= f && 0x400 <= f * Pow2(k) < 0x800
    ensures LeadingBit(f) + k == 10
  {
    var p := LeadingBit(f);
    Pow2Add(p, k);
    Pow2Add(p + 1, k);
    MulLe(Pow2(p), f, Pow2(k));
    MulLt(f, Pow2(p + 1), Pow2(k));
    Pow2Table();
    LeadingBitUnique(f * Pow2(k), p + k, 10);
  }

  /**
   * The 10-bit fraction of a nonzero subnormal after renormalisation: f
   * shifted left until its leading one is the hidden bit, which is dropped.
   */
  function SubnormalFraction(f: nat): (r: nat)
    requires 1 <= f < 0x400
    ensures r < 0x400
  {
    SubnormalSignificand(f);
    f * Pow2(10 - LeadingBit(f)) - 0x400
  }

  /**
   * Biased binary64 exponent of the widened value: zero stays zero; a
   * subnormal f * 2^-24 has exponent LeadingBit(f) - 24; a normal exponent is
   * rebased from bias 15 to bias 1023; infinity and NaN get all ones.
   */
  function WidenedExponent(h: u16): (r: nat)
    ensures r < 0x800
  {
    var e, f := HalfExponent(h), HalfFraction(h);
    if e == 0 && f == 0 then 0
    else if e == 0 then (SubnormalSignificand(f); LeadingBit(f) + 999)
    else if e < 0x1F then e + 1008
    else 0x7FF
  }

  /** The 10 leading fraction bits of the widened value (the remaining 42 are zero). */
  function WidenedFraction(h: u16): (r: nat)
    ensures r < 0x400
  {
    var e, f := HalfExponent(h), HalfFraction(h);
    if e == 0 && f != 0 then SubnormalFraction(f) else f
  }

  /** Reference widening, field by field. */
  function WidenHalf(h: u16): F64 {
    DoubleBits(HalfSign(h), WidenedExponent(h), WidenedFraction(h) * FRACTION_SHIFT)
  }

  /** The high word the source builds, as a function of its final magnitude and shift count. */
  function HighWord(half: u16, abs: nat, k: nat): int {
    (half / 0x8000) * SIGN32 + 0x3F00_0000 * (if half % 0x8000 >= 0x7C00 then 2 else 1)
    - k * 0x10_0000 + abs * 0x400
  }

  lemma ZeroWidening(half: u16)
    requires half % 0x8000 == 0
    ensures WidenHalf(half) == (half / 0x8000) * SIGN32 * WORD
  {
    assert half == 0 || half == 0x8000;
  }

  lemma NormalWidening(half: u16)
    requires half % 0x8000 >= 0x400
    ensures WidenHalf(half) == HighWord(half, half % 0x8000, 0) * WORD
  {
    HalfFields(half);
  }

  /** The three binary16 fields make up the pattern; the low fifteen bits are its magnitude. */
  lemma HalfFields(half: u16)
    ensures HalfSign(half) < 2 && HalfExponent(half) < 0x20 && HalfFraction(half) < 0x400
    ensures half % 0x8000 == HalfExponent(half) * 0x400 + HalfFraction(half)
  {
    var q, f := half / 0x400, half % 0x400;
    var s, e := q / 0x20, q % 0x20;
    assert half == s * 0x8000 + (e * 0x400 + f);
    DivModUnique(half, 0x8000, s, e * 0x400 + f);
  }

  /** The exponent and fraction fields a subnormal widens to, from its normalised magnitude and shift count. */
  lemma SubnormalFields(half: u16, abs: nat, k: nat)
    requires 0 < half % 0x8000 < 0x400
    requires abs == (half % 0x8000) * Pow2(k) && 0x400 <= abs < 0x800
    ensures WidenedFraction(half) == abs - 0x400 && WidenedExponent(half) == 1009 - k
  {
    var f := half % 0x8000;
    assert HalfExponent(half) == 0 && HalfFraction(half) == f by {
      HalfFields(half);
    }
    assert LeadingBit(f) == 10 - k by {
      ShiftToHiddenBit(f, k);
    }
    assert SubnormalFraction(f) == abs - 0x400 by {
      SubnormalSignificand(f);
    }
  }

  lemma SubnormalWidening(half: u16, abs: nat, k: nat)
    requires 0 < half % 0x8000 < 0x400
    requires abs == (half % 0x8000) * Pow2(k) && 0x400 <= abs < 0x800
    ensures WidenHalf(half) == HighWord(half, abs, k) * WORD
  {
    SubnormalFields(half, abs, k);
  }

  /** f shifted left k times, one doubling per step as the source's loop does it. */
  function ShiftLeft(f: nat, k: nat): nat {
    if k == 0 then f else 2 * ShiftLeft(f, k - 1)
  }

  lemma {:induction false} ShiftLeftIsMul(f: nat, k: nat)
    ensures ShiftLeft(f, k) == f * Pow2(k)
  {
    if k > 0 {
      ShiftLeftIsMul(f, k - 1);
    }
  }

  lemma {:induction false} ShiftLeftDoubles(f: nat, k: nat)
    requires k > 0
    ensures ShiftLeft(f, k) >= 2 * f
  {
    if k > 1 {
      ShiftLeftDoubles(f, k - 1);
    }
  }

  lemma Pow2Below(k: nat)
    requires Pow2(k) < 0x400
    ensures k < 10
  {
    Pow2Table();
    if k >= 10 {
      Pow2Monotone(10, k);
    }
  }

  /** What the source's loop leaves behind, for each kind of input, determines the widening. */
  lemma HighWordWidening(half: u16, abs: nat, k: nat)
    requires half % 0x8000 != 0
    requires abs == ShiftLeft(half % 0x8000, k)
    requires if k == 0 then abs >= 0x400 else 0x400 <= abs < 0x800
    ensures WidenHalf(half) == HighWord(half, abs, k) * WORD
  {
    var f := half % 0x8000;
    if k == 0 {
      assert abs == f;
      NormalWidening(half);
    } else {
      ShiftLeftIsMul(f, k);
      ShiftLeftDoubles(f, k);
      SubnormalWidening(half, abs, k);
    }
  }

  /**
   * The source's bit manipulation: the sign goes to bit 31 of a 32-bit high
   * word; a nonzero magnitude gets the exponent rebase 0x3F000000, doubled by
   * the boolean shift for infinity/NaN; a subnormal is normalised by a loop;
   * the magnitude is added shifted by 10; the result is the high word << 32.
   * `Hi |= c` is written as `+` because Hi holds at most bit 31 at that point
   * and c has bits 24..30 only.
   */
  method DoubleFromHalf(half: u16) returns (bits: F64)
    ensures bits == WidenHalf(half)
  {
    var hi: u32 := (half / 0x8000) * 0x8000 * 0x1_0000;
    var abs: u16 := half % 0x8000;
    if abs != 0 {
      hi := hi + 0x3F00_0000 * (if abs >= 0x7C00 then 2 else 1);
      ghost var f := abs;
      ghost var k: nat := 0;
      while abs < 0x400
        invariant abs == ShiftLeft(f, k)
        invariant Pow2(k) <= abs
        invariant k == 0 || abs < 0x800
        invariant k <= 10
        invariant hi == HighWord(half, 0, k)
      {
        Pow2Below(k);
        abs := abs * 2;
        hi := hi - 0x10_0000;
        k := k + 1;
      }
      HighWordWidening(half, abs, k);
      hi := hi + abs * 0x400;
    } else {
      ZeroWidening(half);
    }
    bits := hi * WORD;
  }

  /** The three fields of a binary64 pattern can be read back. */
  lemma DoubleBitsFields(sign: nat, exponent: nat, fraction: nat)
    requires sign < 2 && exponent < 0x800 && fraction < FRAC64
    ensures DoubleBits(sign, exponent, fraction) / SIGN64 == sign
    ensures DoubleBits(sign, exponent, fraction) % SIGN64 == exponent * FRAC64 + fraction
    ensures DoubleBits(sign, exponent, fraction) % FRAC64 == fraction
    ensures (DoubleBits(sign, exponent, fraction) / FRAC64) % 0x800 == exponent
  {
    var x := DoubleBits(sign, exponent, fraction);
    DivModUnique(x, SIGN64, sign, exponent * FRAC64 + fraction);
    DivModUnique(x, FRAC64, sign * 0x800 + exponent, fraction);
    DivModUnique(sign * 0x800 + exponent, 0x800, sign, exponent);
  }

  /** The low 32 bits of every widened pattern are zero. */
  lemma WidenHalfLowWordZero(h: u16)
    ensures WidenHalf(h) % WORD == 0
  {
    var q := HalfSign(h) * SIGN32 + WidenedExponent(h) * 0x10_0000 + WidenedFraction(h) * 0x400;
    DivModUnique(WidenHalf(h), WORD, q, 0);
  }

  /** Bit 63 of the result is bit 15 of the input. */
  lemma WidenHalfSign(h: u16)
    ensures WidenHalf(h) / SIGN64 == h / 0x8000
  {
    DoubleBitsFields(HalfSign(h), WidenedExponent(h), WidenedFraction(h) * FRACTION_SHIFT);
  }

  /** A zero magnitude widens to the zero of the same sign. */
  lemma WidenHalfSignedZero(h: u16)
    requires h % 0x8000 == 0
    ensures WidenHalf(h) == HalfSign(h) * SIGN64
  {
    assert h == 0 || h == 0x8000;
  }

  /**
   * NaNs widen to NaNs and only NaNs do; infinities widen to infinities and
   * only they do; for both the 10-bit fraction (the NaN payload) sits at the
   * top of the 52-bit fraction.
   */
  lemma WidenHalfSpecials(h: u16)
    ensures IsNaN64(WidenHalf(h)) <==> HalfExponent(h) == 0x1F && HalfFraction(h) != 0
    ensures WidenHalf(h) % SIGN64 == 0x7FF * FRAC64 <==> HalfExponent(h) == 0x1F && HalfFraction(h) == 0
    ensures HalfExponent(h) == 0x1F ==> WidenHalf(h) % FRAC64 == HalfFraction(h) * FRACTION_SHIFT
  {
    DoubleBitsFields(HalfSign(h), WidenedExponent(h), WidenedFraction(h) * FRACTION_SHIFT);
    if HalfExponent(h) == 0 && HalfFraction(h) != 0 {
      SubnormalSignificand(HalfFraction(h));
    }
  }

  /** A widening from its three fields. */
  lemma WidenHalfOf(h: u16, sign: nat, exponent: nat, fraction: nat)
    requires HalfSign(h) == sign && WidenedExponent(h) == exponent && WidenedFraction(h) == fraction
    ensures WidenHalf(h) == sign * SIGN64 + exponent * FRAC64 + fraction * FRACTION_SHIFT
  {
  }

  /** Reference conversions of the signed zeros. */
  lemma WidenHalfZeros()
    ensures WidenHalf(0x0000) == 0x0000_0000_0000_0000
    ensures WidenHalf(0x8000) == 0x8000_0000_0000_0000
  {
    assert HalfExponent(0x0000) == 0x0 && HalfFraction(0x0000) == 0x0;
    assert HalfSign(0x0000) == 0 && WidenedExponent(0x0000) == 0 && WidenedFraction(0x0000) == 0;
    WidenHalfOf(0x0000, 0, 0, 0);
    assert HalfExponent(0x8000) == 0x0 && HalfFraction(0x8000) == 0x0;
    assert HalfSign(0x8000) == 1 && WidenedExponent(0x8000) == 0 && WidenedFraction(0x8000) == 0;
    WidenHalfOf(0x8000, 1, 0, 0);
  }

  /** Reference conversions of the smallest and the largest subnormal. */
  lemma WidenHalfSubnormals()
    ensures WidenHalf(0x0001) == 0x3E70_0000_0000_0000
    ensures WidenHalf(0x03FF) == 0x3F0F_F800_0000_0000
  {
    Pow2Table();
    assert LeadingBit(1) == 0;
    assert HalfExponent(0x0001) == 0x0 && HalfFraction(0x0001) == 0x1;
    assert HalfSign(0x0001) == 0 && WidenedExponent(0x0001) == 0x3E7 && WidenedFraction(0x0001) == 0;
    WidenHalfOf(0x0001, 0, 0x3E7, 0);
    assert LeadingBit(0x3FF) == 9 && Pow2(1) == 2;
    assert HalfExponent(0x03FF) == 0x0 && HalfFraction(0x03FF) == 0x3FF;
    assert HalfSign(0x03FF) == 0 && WidenedExponent(0x03FF) == 0x3F0 && WidenedFraction(0x03FF) == 0x3FE;
    WidenHalfOf(0x03FF, 0, 0x3F0, 0x3FE);
  }

  /** Reference conversions of the smallest and the largest normal value. */
  lemma WidenHalfNormalRange()
    ensures WidenHalf(0x0400) == 0x3F10_0000_0000_0000
    ensures WidenHalf(0x7BFF) == 0x40EF_FC00_0000_0000
  {
    assert HalfExponent(0x0400) == 0x1 && HalfFraction(0x0400) == 0x0;
    assert HalfSign(0x0400) == 0 && WidenedExponent(0x0400) == 0x3F1 && WidenedFraction(0x0400) == 0;
    WidenHalfOf(0x0400, 0, 0x3F1, 0);
    assert HalfExponent(0x7BFF) == 0x1E && HalfFraction(0x7BFF) == 0x3FF;
    assert HalfSign(0x7BFF) == 0 && WidenedExponent(0x7BFF) == 0x40E && WidenedFraction(0x7BFF) == 0x3FF;
    WidenHalfOf(0x7BFF, 0, 0x40E, 0x3FF);
  }

  /** Reference conversions of one and minus two. */
  lemma WidenHalfOneMinusTwo()
    ensures WidenHalf(0x3C00) == 0x3FF0_0000_0000_0000
    ensures WidenHalf(0xC000) == 0xC000_0000_0000_0000
  {
    assert HalfExponent(0x3C00) == 0xF && HalfFraction(0x3C00) == 0x0;
    assert HalfSign(0x3C00) == 0 && WidenedExponent(0x3C00) == 0x3FF && WidenedFraction(0x3C00) == 0;
    WidenHalfOf(0x3C00, 0, 0x3FF, 0);
    assert HalfExponent(0xC000) == 0x10 && HalfFraction(0xC000) == 0x0;
    assert HalfSign(0xC000) == 1 && WidenedExponent(0xC000) == 0x400 && WidenedFraction(0xC000) == 0;
    WidenHalfOf(0xC000, 1, 0x400, 0);
  }

  /** Reference conversions of infinity and of the quiet NaN. */
  lemma WidenHalfInfinityNaN()
    ensures WidenHalf(0x7C00) == 0x7FF0_0000_0000_0000
    ensures WidenHalf(0x7E00) == 0x7FF8_0000_0000_0000
  {
    assert HalfExponent(0x7C00) == 0x1F && HalfFraction(0x7C00) == 0x0;
    assert HalfSign(0x7C00) == 0 && WidenedExponent(0x7C00) == 0x7FF && WidenedFraction(0x7C00) == 0;
    WidenHalfOf(0x7C00, 0, 0x7FF, 0);
    assert HalfExponent(0x7E00) == 0x1F && HalfFraction(0x7E00) == 0x200;
    assert HalfSign(0x7E00) == 0 && WidenedExponent(0x7E00) == 0x7FF && WidenedFraction(0x7E00) == 0x200;
    WidenHalfOf(0x7E00, 0, 0x7FF, 0x200);
  }
}
