/**
 * The bit-level codec between the "internal" low-latency 32-bit float layout
 * and the IEEE 754 binary32 layout (section 3.4 of IEEE 754-2008).
 *
 * Both types only hold a 32-bit word; every getter is a shift and a mask of it.
 * The conversions move bits and never look at the numeric value a word denotes.
 */
module FpEngine {

  /** The low-latency layout: sign bit 31, exponent bits 30..24,
      mantissa bits 23..1 and a flag bit 0 (the bitfield named `zero`). */
  datatype LowLatencyFloat = LowLatencyFloat(bits: bv32)
  {
    static function Zero(): (z: LowLatencyFloat)
      ensures z.Representation() == 0
      ensures !z.Sign() && z.Exponent() == 0 && z.Mantissa() == 0 && !z.ZeroBit()
    {
      LowLatencyFloat(0)
    }

    /** `From<u32>`: wraps any word verbatim. */
    static function FromBits(bits: bv32): (f: LowLatencyFloat)
      ensures f.Representation() == bits
    {
      LowLatencyFloat(bits)
    }

    /** The word `(sign << 31) | (exponent << 24) | (mantissa << 1)` and what its
        getters read back: bit 7 of an 8-bit exponent lands on the sign bit. */
    static function Pack(sign: bv32, exponent: bv32, mantissa: bv32): (f: LowLatencyFloat)
      requires sign <= 1 && exponent < 0x100 && mantissa < 0x80_0000
      ensures f.Sign() == (sign | (exponent >> 7) == 1)
      ensures f.Exponent() == exponent & 0x7F
      ensures f.Mantissa() == mantissa
      ensures !f.ZeroBit()
    {
      LowLatencyFloat((sign << 31) | (exponent << 24) | (mantissa << 1))
    }

    /** The raw word; it is 0 exactly when every field is clear. */
    function Representation(): (w: bv32)
      ensures w == 0 <==> !Sign() && Exponent() == 0 && Mantissa() == 0 && !ZeroBit()
    {
      bits
    }

    /** The sign field, bit 31: set exactly for the upper half of the words. */
    predicate Sign()
      ensures Sign() <==> bits >= 0x8000_0000
    {
      (bits >> 31) & 1 == 1
    }

    function Exponent(): (e: bv32)
      ensures e < 0x80
    {
      (bits >> 24) & 0x7F
    }

    function Mantissa(): (m: bv32)
      ensures m < 0x80_0000
    {
      (bits >> 1) & 0x7F_FFFF
    }

    /** The flag field, bit 0: set exactly for the odd words. */
    predicate ZeroBit()
      ensures ZeroBit() <==> bits % 2 == 1
    {
      bits & 1 == 1
    }
  }

  /** The IEEE 754 binary32 layout: sign bit 31, exponent bits 30..23, mantissa bits 22..0. */
  datatype StandardFloat = StandardFloat(bits: bv32)
  {
    static function Zero(): (z: StandardFloat)
      ensures z.Representation() == 0
      ensures !z.Sign() && z.Exponent() == 0 && z.Mantissa() == 0
    {
      StandardFloat(0)
    }

    /** `From<u32>`: wraps any word verbatim. */
    static function FromBits(bits: bv32): (f: StandardFloat)
      ensures f.Representation() == bits
    {
      StandardFloat(bits)
    }

    /** The word `(sign << 31) | (exponent << 23) | mantissa` and what its getters
        read back: bit 23 of a 24-bit mantissa is OR-ed into the exponent field. */
    static function Pack(sign: bv32, exponent: bv32, mantissa: bv32): (f: StandardFloat)
      requires sign <= 1 && exponent < 0x100 && mantissa < 0x100_0000
      ensures f.Sign() == (sign == 1)
      ensures f.Exponent() == exponent | (mantissa >> 23)
      ensures f.Mantissa() == mantissa & 0x7F_FFFF
    {
      StandardFloat((sign << 31) | (exponent << 23) | mantissa)
    }

    /** The raw word; it is 0 exactly when every field is clear. */
    function Representation(): (w: bv32)
      ensures w == 0 <==> !Sign() && Exponent() == 0 && Mantissa() == 0
    {
      bits
    }

    /** The sign field, bit 31: set exactly for the upper half of the words. */
    predicate Sign()
      ensures Sign() <==> bits >= 0x8000_0000
    {
      (bits >> 31) & 1 == 1
    }

    function Exponent(): (e: bv32)
      ensures e < 0x100
    {
      (bits >> 23) & 0xFF
    }

    function Mantissa(): (m: bv32)
      ensures m < 0x80_0000
    {
      bits & 0x7F_FFFF
    }
  }

  /** The fields of each layout partition the word: packing the getters back
      at their offsets gives the word again, so no bit is shared or dropped. */
  lemma LowLatencyFieldsPartition(f: LowLatencyFloat)
    ensures f.Representation()
      == ((if f.Sign() then 1 else 0) << 31) | (f.Exponent() << 24) | (f.Mantissa() << 1)
         | (if f.ZeroBit() then 1 else 0)
  {
  }

  lemma StandardFieldsPartition(f: StandardFloat)
    ensures f.Representation()
      == ((if f.Sign() then 1 else 0) << 31) | (f.Exponent() << 23) | f.Mantissa()
  {
  }

  /**
   * `From<LowLatencyFloat> for StandardFloat`. The word 0 maps to 0; otherwise the
   * sign is inverted, the exponent is rebiased by +127 and the mantissa is shifted
   * left by one bit WITHOUT a mask, so the top low-latency mantissa bit lands on
   * bit 23 and is OR-ed into the low bit of the IEEE exponent field.
   * Only the word 0 maps to 0: any other word gets an exponent field of at least 127.
   */
  function ToStandard(llf: LowLatencyFloat): (sf: StandardFloat)
    ensures sf.Representation() == 0 <==> llf.Representation() == 0
  {
    if llf.Representation() == 0 then
      StandardFloat.Zero()
    else
      var sign: bv32 := if llf.Sign() then 0 else 1;
      var exponent := llf.Exponent();
      var mantissa := llf.Mantissa();
      var sfExponent := exponent + 127;
      var sfMantissa := mantissa << (23 - 22);
      StandardFloat.Pack(sign, sfExponent, sfMantissa)
  }

  /** Bit facts about the unmasked `m << 1` of a 23-bit mantissa. */
  lemma ShiftedMantissa(m: bv32)
    requires m < 0x80_0000
    ensures m << 1 < 0x100_0000
    ensures (m << 1) >> 23 == m >> 22
    ensures (m << 1) & 0x7F_FFFF == (m & 0x3F_FFFF) << 1
    ensures ((m << 1) & 0x7F_FFFF) & 1 == 0
  {
  }

  /** For a non-zero word ToStandard inverts the sign bit. */
  lemma ToStandardSign(llf: LowLatencyFloat)
    requires llf.Representation() != 0
    ensures ToStandard(llf).Sign() == !llf.Sign()
  {
    ShiftedMantissa(llf.Mantissa());
  }

  /** For a non-zero word the IEEE exponent field is `(e + 127) | (m >> 22)`, so it lies
      in 127..255; with the top mantissa bit clear it is exactly `e + 127`, at most 254. */
  lemma ToStandardExponent(llf: LowLatencyFloat)
    requires llf.Representation() != 0
    ensures ToStandard(llf).Exponent() == (llf.Exponent() + 127) | (llf.Mantissa() >> 22)
    ensures 127 <= ToStandard(llf).Exponent()
    ensures llf.Mantissa() < 0x40_0000 ==> ToStandard(llf).Exponent() == llf.Exponent() + 127 <= 254
  {
    ShiftedMantissa(llf.Mantissa());
  }

  /** For a non-zero word the IEEE mantissa field is `(m << 1) mod 2^23`: its low bit
      is always 0 and the top low-latency mantissa bit is not in it. */
  lemma ToStandardMantissa(llf: LowLatencyFloat)
    requires llf.Representation() != 0
    ensures ToStandard(llf).Mantissa() == (llf.Mantissa() & 0x3F_FFFF) << 1
    ensures ToStandard(llf).Mantissa() & 1 == 0
  {
    ShiftedMantissa(llf.Mantissa());
  }

  /**
   * `From<StandardFloat> for LowLatencyFloat`. The word 0 maps to 0; otherwise the
   * sign is inverted, the exponent is rebiased by -127 saturating at 0
   * (`checked_sub(127).unwrap_or(0)`) and the mantissa is shifted right by one bit.
   * An IEEE exponent of 255 gives 128, whose bit 7 lands on bit 31: the sign bit.
   * The flag bit 0 is never set.
   */
  function ToLowLatency(sf: StandardFloat): (llf: LowLatencyFloat)
    ensures sf.Representation() == 0 ==> llf.Representation() == 0
    ensures !llf.ZeroBit()
  {
    if sf.Representation() == 0 then
      LowLatencyFloat.Zero()
    else
      var sign: bv32 := if sf.Sign() then 0 else 1;
      var exponent := sf.Exponent();
      var mantissa := sf.Mantissa();
      var llfExponent := if exponent >= 127 then exponent - 127 else 0;
      var llfMantissa := mantissa >> (23 - 22);
      LowLatencyFloat.Pack(sign, llfExponent, llfMantissa)
  }

  /** Bit facts about the saturating `checked_sub(127).unwrap_or(0)` of an 8-bit exponent. */
  lemma SaturatedExponent(e: bv32)
    requires e < 0x100
    ensures (if e >= 127 then e - 127 else 0) < 0x100
    ensures e <= 254 ==> (if e >= 127 then e - 127 else 0) >> 7 == 0
    ensures e == 255 ==> (if e >= 127 then e - 127 else 0) == 128
  {
  }

  /** For a non-zero word ToLowLatency inverts the sign bit, except that an IEEE
      exponent of 255 always sets it. */
  lemma ToLowLatencySign(sf: StandardFloat)
    requires sf.Representation() != 0
    ensures sf.Exponent() <= 254 ==> ToLowLatency(sf).Sign() == !sf.Sign()
    ensures sf.Exponent() == 255 ==> ToLowLatency(sf).Sign()
  {
    SaturatedExponent(sf.Exponent());
  }

  /** For a non-zero word the low-latency exponent saturates: 0 below 127, `E - 127`
      for 127..254, and 0 for 255 (whose 128 went to the sign bit). */
  lemma ToLowLatencyExponent(sf: StandardFloat)
    requires sf.Representation() != 0
    ensures sf.Exponent() < 127 ==> ToLowLatency(sf).Exponent() == 0
    ensures 127 <= sf.Exponent() <= 254 ==> ToLowLatency(sf).Exponent() == sf.Exponent() - 127
    ensures sf.Exponent() == 255 ==> ToLowLatency(sf).Exponent() == 0
  {
    SaturatedExponent(sf.Exponent());
  }

  /** For a non-zero word the low-latency mantissa is the IEEE mantissa shifted right
      by one, so bit 23 of the result is clear. */
  lemma ToLowLatencyMantissa(sf: StandardFloat)
    requires sf.Representation() != 0
    ensures ToLowLatency(sf).Mantissa() == sf.Mantissa() >> 1
    ensures ToLowLatency(sf).Mantissa() < 0x40_0000
  {
    SaturatedExponent(sf.Exponent());
  }

  /** Low-latency to IEEE and back loses only the flag bit 0, as long as the
      top mantissa bit (bit 23) is clear. */
  lemma LowLatencyRoundTrip(x: LowLatencyFloat)
    requires x.Representation() != 0
    requires x.Mantissa() < 0x40_0000
    ensures ToLowLatency(ToStandard(x)).Representation() == x.Representation() & 0xFFFF_FFFE
  {
    ToStandardSign(x);
    ToStandardExponent(x);
    ToStandardMantissa(x);
    var s := ToStandard(x);
    ToLowLatencySign(s);
    ToLowLatencyExponent(s);
    ToLowLatencyMantissa(s);
    LowLatencyFieldsPartition(x);
    LowLatencyFieldsPartition(ToLowLatency(s));
  }

  /** IEEE to low-latency and back loses only the lowest mantissa bit, for exponents
      in 127..254 whose low-latency image is not the zero word. */
  lemma StandardRoundTrip(x: StandardFloat)
    requires x.Representation() != 0
    requires 127 <= x.Exponent() <= 254
    requires ToLowLatency(x).Representation() != 0
    ensures ToStandard(ToLowLatency(x)).Representation() == x.Representation() & 0xFFFF_FFFE
  {
    ToLowLatencySign(x);
    ToLowLatencyExponent(x);
    ToLowLatencyMantissa(x);
    var l := ToLowLatency(x);
    ToStandardSign(l);
    ToStandardExponent(l);
    ToStandardMantissa(l);
    StandardFieldsPartition(x);
    StandardFieldsPartition(ToStandard(l));
  }

  /** Non-zero IEEE words whose low-latency image is the zero word: the round trip
      above needs its last precondition. */
  lemma ToLowLatencyCollapsesToZero()
    ensures ToLowLatency(StandardFloat.FromBits(0x8000_0000)).Representation() == 0
    ensures ToLowLatency(StandardFloat.FromBits(0xBF80_0000)).Representation() == 0
    ensures ToStandard(ToLowLatency(StandardFloat.FromBits(0xBF80_0000))).Representation() == 0
  {
  }

  /** The unmasked shift in ToStandard: a set bit 23 raises the IEEE exponent
      (1 + 127 becomes 129) and is lost from the mantissa. */
  lemma ToStandardMantissaCarry()
    ensures ToStandard(LowLatencyFloat.FromBits(0x0180_0000)).Representation() == 0xC080_0000
    ensures ToStandard(LowLatencyFloat.FromBits(0x0180_0000)).Exponent() == 129
    ensures ToStandard(LowLatencyFloat.FromBits(0x0180_0000)).Mantissa() == 0
  {
  }

  /** An IEEE exponent of 255 sets bit 31 of the low-latency word whatever the input sign. */
  lemma ToLowLatencyExponentOverflow()
    ensures ToLowLatency(StandardFloat.FromBits(0x7F80_0000)).Representation() == 0x8000_0000
    ensures ToLowLatency(StandardFloat.FromBits(0xFF80_0000)).Representation() == 0x8000_0000
  {
  }

  /** The application's two default inputs are each other's image. */
  lemma DefaultWordsCorrespond()
    ensures ToStandard(LowLatencyFloat.FromBits(0x8F7F_FF00)).Representation() == 0x477F_FF00
    ensures ToLowLatency(StandardFloat.FromBits(0x477F_FF00)).Representation() == 0x8F7F_FF00
  {
  }
}
