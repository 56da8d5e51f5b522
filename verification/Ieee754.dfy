/** The binary floating-point formats behind the shortest-float rule.

    A finite number is kept as an exact integer count of 2^-1074, the smallest
    positive binary64 number, so every binary16, binary32 and binary64 number has
    an exact value here and no rounding is hidden in the model. */
module Ieee754 {
  import opened Numbers

  datatype Datum = Finite(negative: bool, units: nat) | Infinite(negative: bool) | NaN

  /** The `==` of IEEE 754: NaN equals nothing and the two zeros are equal. */
  predicate NumericEq(a: Datum, b: Datum) {
    match (a, b)
    case (Finite(s, m), Finite(t, n)) => m == n && (s == t || m == 0)
    case (Infinite(s), Infinite(t)) => s == t
    case _ => false
  }

  datatype Fields = Fields(negative: bool, exponent: nat, mantissa: nat)

  /** An interchange format; `scale` is the weight of the last subnormal bit, 2^(scale - 1074). */
  datatype Format = Format(mantissaBits: nat, maxExponent: nat, scale: nat)

  const BINARY16 := Format(10, 31, 1050)
  const BINARY32 := Format(23, 255, 925)
  const BINARY64 := Format(52, 2047, 0)

  /** The number that IEEE 754 assigns to the three fields of a format. */
  function Meaning(f: Format, x: Fields): Datum {
    if x.exponent == f.maxExponent then
      if x.mantissa == 0 then Infinite(x.negative) else NaN
    else
      Finite(x.negative, Significand(f, x) * Pow2(Weight(f, x)))
  }

  function Significand(f: Format, x: Fields): nat {
    if x.exponent == 0 then x.mantissa else Pow2(f.mantissaBits) + x.mantissa
  }

  function Weight(f: Format, x: Fields): nat {
    if x.exponent == 0 then f.scale else f.scale + x.exponent - 1
  }

  function Split16(bits: u16): Fields {
    Fields(bits / 0x8000 == 1, bits / 0x400 % 0x20, bits % 0x400)
  }

  function Split32(bits: u32): Fields {
    Fields(bits / 0x8000_0000 == 1, bits / 0x80_0000 % 0x100, bits % 0x80_0000)
  }

  function Split64(bits: u64): Fields {
    Fields(bits / 0x8000_0000_0000_0000 == 1,
           bits / 0x10_0000_0000_0000 % 0x800,
           bits % 0x10_0000_0000_0000)
  }

  function Join64(x: Fields): (bits: u64)
    requires x.exponent < 0x800 && x.mantissa < 0x10_0000_0000_0000
    ensures Split64(bits) == x
  {
    (if x.negative then 0x8000_0000_0000_0000 else 0) + x.exponent * 0x10_0000_0000_0000 + x.mantissa
  }

  lemma Join64Split64(bits: u64)
    ensures Join64(Split64(bits)) == bits
  {
  }

  function Binary16(bits: u16): Datum { Meaning(BINARY16, Split16(bits)) }
  function Binary32(bits: u32): Datum { Meaning(BINARY32, Split32(bits)) }
  function Binary64(bits: u64): Datum { Meaning(BINARY64, Split64(bits)) }

  predicate IsNaN64(bits: u64) { Binary64(bits).NaN? }

  // ----- the encoder's conversions -----

  /** The truncating binary64 to binary16 conversion. */
  function F64ToF16Bits(bits: u64): (r: u16)
    ensures r / 0x8000 == bits / 0x8000_0000_0000_0000
  {
    var sign := bits / 0x8000_0000_0000_0000 * 0x8000;
    var exp := bits / 0x10_0000_0000_0000 % 0x800;
    var mantissa := bits % 0x10_0000_0000_0000;
    if exp == 0x7ff then
      sign + 0x7c00 + (if mantissa != 0 then 0x200 else 0)
    else
      var expF16 := exp - 1023 + 15;
      if expF16 >= 31 then
        sign + 0x7c00
      else if expF16 <= 0 then
        if expF16 < -10 then
          sign
        else
          var shift := 1 - expF16 + 42;
          ShortMantissa(mantissa, shift);
          sign + (mantissa + 0x10_0000_0000_0000) / Pow2(shift)
      else
        sign + expF16 * 0x400 + mantissa / 0x400_0000_0000
  }

  lemma ShortMantissa(mantissa: nat, shift: nat)
    requires mantissa < 0x10_0000_0000_0000 && 43 <= shift
    ensures 0 <= (mantissa + 0x10_0000_0000_0000) / Pow2(shift) < 0x400
  {
    var n, d := mantissa + 0x10_0000_0000_0000, Pow2(shift);
    Pow2ValuesWide();
    assert d >= 0x800_0000_0000 by {
      if 43 < shift {
        Pow2Less(43, shift);
      }
    }
    DivLess(n, d, 0x400);
  }

  lemma DivBound(n: nat, low: nat, shift: nat, bound: nat)
    requires low <= shift && n < bound * Pow2(low)
    ensures n / Pow2(shift) < bound
  {
    hide Pow2;
    if low < shift {
      Pow2Less(low, shift);
    }
    MulMono(Pow2(low), Pow2(shift), bound);
    DivLess(n, Pow2(shift), bound);
  }

  /** Back-conversion of a binary16 pattern, in units of 2^-1074. */
  function F16BitsToF64(bits: u16): (r: Datum)
  {
    var negative := bits / 0x8000 != 0;
    var exp := bits / 0x400 % 0x20;
    var mantissa := bits % 0x400;
    if exp == 0 then
      Finite(negative, mantissa * Pow2(1074 - 24))
    else if exp == 31 then
      if mantissa == 0 then Infinite(negative) else NaN
    else
      Finite(negative, (1024 + mantissa) * Pow2(1074 - 10 + exp - 15))
  }

  lemma BackConversionIsBinary16(bits: u16)
    ensures F16BitsToF64(bits) == Binary16(bits)
  {
    Pow2Values();
  }

  /** `n / 2^shift`, rounded to nearest, ties to even. */
  function RoundShift(n: nat, shift: nat): nat
    requires shift > 0
  {
    var q, r, half := n / Pow2(shift), n % Pow2(shift), Pow2(shift - 1);
    if r > half || (r == half && q % 2 == 1) then q + 1 else q
  }

  lemma RoundBound(n: nat, low: nat, shift: nat)
    requires 0 < low <= shift && n < 0x80_0000 * Pow2(low)
    ensures RoundShift(n, shift) <= 0x80_0000
  {
    hide Pow2;
    DivBound(n, low, shift, 0x80_0000);
  }

  /** Rounding away at least `low` bits leaves at most 23, or carries into the exponent. */
  function Rounded(n: nat, low: nat, shift: nat): (r: nat)
    requires 0 < low <= shift && n < 0x80_0000 * Pow2(low)
    ensures r <= 0x80_0000
  {
    RoundBound(n, low, shift);
    RoundShift(n, shift)
  }

  /** The binary64 to binary32 cast: round to nearest, ties to even. */
  function F64ToF32Bits(bits: u64): (r: u32)
    ensures r / 0x8000_0000 == bits / 0x8000_0000_0000_0000
  {
    var sign := bits / 0x8000_0000_0000_0000 * 0x8000_0000;
    var exp := bits / 0x10_0000_0000_0000 % 0x800;
    var mantissa := bits % 0x10_0000_0000_0000;
    if exp == 0x7ff then
      sign + 0x7f80_0000 + (if mantissa != 0 then 0x40_0000 else 0)
    else
      var expF32 := exp - 1023 + 127;
      if expF32 >= 255 then
        sign + 0x7f80_0000
      else if expF32 <= 0 then
        var significand := if exp == 0 then mantissa else mantissa + 0x10_0000_0000_0000;
        Pow2Values();
        sign + Rounded(significand, 30, 30 - expF32)
      else
        Pow2Values();
        sign + expF32 * 0x80_0000 + Rounded(mantissa, 29, 29)
  }

  // ----- equal numbers in two formats -----

  /** A nonzero number of a narrower format that equals a binary64 number pins down
      the binary64 exponent and significand. */
  lemma NarrowFields(f: Format, x: Fields, d: Fields, k: nat)
    requires f.scale >= 52 && k <= 52
    requires LeadingBit(Significand(f, x), k)
    requires d.mantissa < Pow2(52)
    requires Significand(f, x) * Pow2(Weight(f, x)) == Significand(BINARY64, d) * Pow2(Weight(BINARY64, d))
    ensures d.exponent > 0
    ensures d.exponent + 51 == k + Weight(f, x)
    ensures Pow2(52) + d.mantissa == Significand(f, x) * Pow2(52 - k)
  {
    var s, w := Significand(f, x), Weight(f, x);
    LeadingBitScaled(s, k, w);
    var e := NarrowExponent(s * Pow2(w), k + w, d);
    ScaleDown(Pow2(52) + d.mantissa, e, s, w, 52 - k);
  }

  lemma NarrowExponent(units: nat, top: nat, d: Fields) returns (e: nat)
    requires LeadingBit(units, top) && top >= 52
    requires d.mantissa < Pow2(52)
    requires units == Significand(BINARY64, d) * Pow2(Weight(BINARY64, d))
    ensures d.exponent == e + 1 && top == 52 + e
  {
    if d.exponent == 0 {
      SubnormalTooSmall(d, top);
      assert false;
    }
    e := d.exponent - 1;
    LeadingBitScaled(Pow2(52) + d.mantissa, 52, e);
    LeadingBitUnique(units, top, 52 + e);
  }

  lemma SubnormalTooSmall(d: Fields, top: nat)
    requires d.exponent == 0 && d.mantissa < Pow2(52) && top >= 52
    ensures Significand(BINARY64, d) * Pow2(Weight(BINARY64, d)) < Pow2(top)
  {
    assert Pow2(0) == 1;
    assert Significand(BINARY64, d) * Pow2(Weight(BINARY64, d)) == d.mantissa;
    if top > 52 {
      Pow2Less(52, top);
    }
  }

  lemma ScaleDown(a: nat, e: nat, s: nat, w: nat, gap: nat)
    requires w == gap + e
    requires a * Pow2(e) == s * Pow2(w)
    ensures a == s * Pow2(gap)
  {
    Pow2Add(gap, e);
    MulAssociative(s, Pow2(gap), Pow2(e));
    MulCancel(a, s * Pow2(gap), Pow2(e));
  }

  // ----- widening, as a decoder must do it -----

  predicate Within(f: Format, x: Fields) {
    x.exponent <= f.maxExponent && x.mantissa < Pow2(f.mantissaBits)
  }

  /** The format fits inside the normal range of binary64. */
  predicate Narrow(f: Format) {
    f.mantissaBits < 52 <= f.scale && f.scale + f.maxExponent + f.mantissaBits < 2047
  }

  /** The binary64 fields that hold the number of a narrower format. */
  function Widen(f: Format, x: Fields): (d: Fields)
    requires Narrow(f) && Within(f, x)
    ensures Within(BINARY64, d) && d.negative == x.negative
  {
    if x.exponent == f.maxExponent then
      Fields(x.negative, 2047, WideMantissa(x.mantissa, f.mantissaBits))
    else if x.exponent > 0 then
      Fields(x.negative, x.exponent + f.scale + f.mantissaBits - 52, WideMantissa(x.mantissa, f.mantissaBits))
    else if x.mantissa == 0 then
      Fields(x.negative, 0, 0)
    else
      WideSubnormal(f, x)
  }

  /** The mantissa with `52 - m` zero bits behind it. */
  function WideMantissa(mantissa: nat, m: nat): (r: nat)
    requires m <= 52 && mantissa < Pow2(m)
    ensures r < Pow2(52)
  {
    WideMantissaFits(mantissa, m);
    mantissa * Pow2(52 - m)
  }

  lemma WideMantissaFits(mantissa: nat, m: nat)
    requires m <= 52 && mantissa < Pow2(m)
    ensures mantissa * Pow2(52 - m) < Pow2(52)
  {
    hide Pow2;
    Pow2Add(m, 52 - m);
    MulStrict(mantissa, Pow2(m), Pow2(52 - m));
  }

  /** A nonzero subnormal is normal in binary64: its leading bit becomes the hidden one. */
  function WideSubnormal(f: Format, x: Fields): (d: Fields)
    requires Narrow(f) && x.exponent == 0 && 0 < x.mantissa < Pow2(f.mantissaBits)
    ensures Within(BINARY64, d) && d.negative == x.negative
  {
    var k := SubnormalTop(f, x);
    Fields(x.negative, k + f.scale - 51, x.mantissa * Pow2(52 - k) - Pow2(52))
  }

  /** The leading bit of a nonzero subnormal mantissa. */
  function SubnormalTop(f: Format, x: Fields): (k: nat)
    requires Narrow(f) && x.exponent == 0 && 0 < x.mantissa < Pow2(f.mantissaBits)
    ensures k < f.mantissaBits && LeadingBit(x.mantissa, k)
    ensures Pow2(52) <= x.mantissa * Pow2(52 - k) < 2 * Pow2(52)
  {
    var k := Log2(x.mantissa);
    if k > f.mantissaBits then Pow2Less(f.mantissaBits, k); k
    else LeadingBitScaled(x.mantissa, k, 52 - k); k
  }

  /** Widening is exact. */
  lemma WidenExact(f: Format, x: Fields)
    requires Narrow(f) && Within(f, x)
    ensures Meaning(BINARY64, Widen(f, x)) == Meaning(f, x)
  {
    hide Pow2, WideSubnormal;
    if x.exponent == f.maxExponent {
      if x.mantissa > 0 {
        MulMono(1, x.mantissa, Pow2(52 - f.mantissaBits));
      }
    } else if x.exponent > 0 {
      WidenNormalExact(f, x);
    } else if x.mantissa > 0 {
      WidenSubnormalExact(f, x);
    }
  }

  lemma WidenSubnormalExact(f: Format, x: Fields)
    requires Narrow(f) && Within(f, x) && x.exponent == 0 < f.maxExponent && x.mantissa > 0
    ensures Meaning(BINARY64, Widen(f, x)) == Meaning(f, x)
  {
    hide Pow2;
    var k := SubnormalTop(f, x);
    Rescale(x.mantissa, 52 - k, Widen(f, x).exponent - 1);
  }

  lemma WidenNormalExact(f: Format, x: Fields)
    requires Narrow(f) && Within(f, x) && 0 < x.exponent < f.maxExponent
    ensures Meaning(BINARY64, Widen(f, x)) == Meaning(f, x)
  {
    var d, m := Widen(f, x), f.mantissaBits;
    Pow2Add(m, 52 - m);
    Distribute(Pow2(m), x.mantissa, Pow2(52 - m));
    assert Significand(BINARY64, d) == Significand(f, x) * Pow2(52 - m);
    Rescale(Significand(f, x), 52 - m, d.exponent - 1);
  }

  lemma Rescale(s: nat, gap: nat, e: nat)
    ensures s * Pow2(gap) * Pow2(e) == s * Pow2(gap + e)
  {
    Pow2Add(gap, e);
    MulAssociative(s, Pow2(gap), Pow2(e));
  }

  lemma WidenNormalInverse(f: Format, x: Fields, d: Fields)
    requires Narrow(f) && Within(f, x) && Within(BINARY64, d) && 0 < x.exponent < f.maxExponent
    requires Significand(f, x) * Pow2(Weight(f, x)) == Significand(BINARY64, d) * Pow2(Weight(BINARY64, d))
    requires x.negative == d.negative
    ensures Widen(f, x) == d
  {
    var m := f.mantissaBits;
    NarrowFields(f, x, d, m);
    hide Meaning, Weight;
    Pow2Add(m, 52 - m);
    Distribute(Pow2(m), x.mantissa, Pow2(52 - m));
  }

  lemma WidenSubnormalInverse(f: Format, x: Fields, d: Fields)
    requires Narrow(f) && Within(f, x) && Within(BINARY64, d) && x.exponent == 0 < f.maxExponent && x.mantissa > 0
    requires Significand(f, x) * Pow2(Weight(f, x)) == Significand(BINARY64, d) * Pow2(Weight(BINARY64, d))
    requires x.negative == d.negative
    ensures Widen(f, x) == d
  {
    NarrowFields(f, x, d, SubnormalTop(f, x));
  }

  /** A number of the narrower format that equals a binary64 number, sign of zero
      included, widens back to exactly that binary64 number. */
  lemma WidenIsInverse(f: Format, x: Fields, d: Fields)
    requires Narrow(f) && Within(f, x) && Within(BINARY64, d)
    requires NumericEq(Meaning(f, x), Meaning(BINARY64, d)) && x.negative == d.negative
    ensures Widen(f, x) == d
  {
    hide Pow2, WideSubnormal;
    if x.exponent < f.maxExponent {
      if x.exponent > 0 {
        WidenNormalInverse(f, x, d);
      } else if x.mantissa > 0 {
        WidenSubnormalInverse(f, x, d);
      } else {
        ZeroFields(d);
      }
    }
  }

  lemma Distribute(a: nat, b: nat, c: nat)
    ensures (a + b) * c == a * c + b * c
  {
  }

  lemma ZeroFields(d: Fields)
    requires Within(BINARY64, d) && d.exponent < 2047
    requires Significand(BINARY64, d) * Pow2(Weight(BINARY64, d)) == 0
    ensures d.exponent == 0 && d.mantissa == 0
  {
    var s := Significand(BINARY64, d);
    if s > 0 {
      MulMono(1, s, Pow2(Weight(BINARY64, d)));
    }
  }

  // ----- widened bit patterns -----

  lemma HalfFields(h: u16)
    ensures Within(BINARY16, Split16(h)) && Narrow(BINARY16)
  {
    Pow2Values();
  }

  lemma SingleFields(h: u32)
    ensures Within(BINARY32, Split32(h)) && Narrow(BINARY32)
  {
    Pow2Values();
  }

  lemma DoubleFields(bits: u64)
    ensures Within(BINARY64, Split64(bits))
  {
    Pow2ValuesWide();
  }

  function WidenHalf(h: u16): (bits: u64)
    ensures Within(BINARY16, Split16(h)) && Narrow(BINARY16)
    ensures Split64(bits) == Widen(BINARY16, Split16(h))
  {
    HalfFields(h);
    Pow2ValuesWide();
    Join64(Widen(BINARY16, Split16(h)))
  }

  function WidenSingle(h: u32): (bits: u64)
    ensures Within(BINARY32, Split32(h)) && Narrow(BINARY32)
    ensures Split64(bits) == Widen(BINARY32, Split32(h))
  {
    SingleFields(h);
    Pow2ValuesWide();
    Join64(Widen(BINARY32, Split32(h)))
  }

  /** A binary16 pattern equal to `bits`, sign of zero included, widens to `bits`. */
  lemma WidenHalfInverse(bits: u64, h: u16)
    requires NumericEq(Binary16(h), Binary64(bits))
    requires h / 0x8000 == bits / 0x8000_0000_0000_0000
    ensures WidenHalf(h) == bits
  {
    HalfFields(h);
    DoubleFields(bits);
    WidenIsInverse(BINARY16, Split16(h), Split64(bits));
    Join64Split64(bits);
  }

  lemma WidenSingleInverse(bits: u64, h: u32)
    requires NumericEq(Binary32(h), Binary64(bits))
    requires h / 0x8000_0000 == bits / 0x8000_0000_0000_0000
    ensures WidenSingle(h) == bits
  {
    SingleFields(h);
    DoubleFields(bits);
    WidenIsInverse(BINARY32, Split32(h), Split64(bits));
    Join64Split64(bits);
  }

  // ----- the encoder's conversions undo widening -----

  lemma TruncateNormal(bits: u64, x: Fields)
    requires 0 < x.exponent < 31 && x.mantissa < 0x400
    requires Split64(bits) == Fields(x.negative, x.exponent + 1008, x.mantissa * 0x400_0000_0000)
    ensures F64ToF16Bits(bits) == (if x.negative then 0x8000 else 0) + x.exponent * 0x400 + x.mantissa
  {
  }

  lemma TruncateSubnormal(bits: u64, x: Fields, k: nat)
    requires k < 10 && x.mantissa < 0x400
    requires Split64(bits).negative == x.negative && Split64(bits).exponent == k + 999
    requires Split64(bits).mantissa + 0x10_0000_0000_0000 == x.mantissa * Pow2(52 - k)
    ensures F64ToF16Bits(bits) == (if x.negative then 0x8000 else 0) + x.mantissa
  {
    DivExact(x.mantissa, Pow2(52 - k));
  }

  lemma Recompose16(h: u16)
    ensures h == (if Split16(h).negative then 0x8000 else 0) + Split16(h).exponent * 0x400 + Split16(h).mantissa
  {
  }

  lemma TruncateWidened(h: u16)
    requires Split16(h).exponent < 31
    ensures F64ToF16Bits(WidenHalf(h)) == h
  {
    var x, bits := Split16(h), WidenHalf(h);
    HalfFields(h);
    Pow2ValuesWide();
    Recompose16(h);
    if x.exponent > 0 {
      TruncateNormal(bits, x);
    } else if x.mantissa > 0 {
      TruncateSubnormal(bits, x, SubnormalTop(BINARY16, x));
    }
  }

  lemma RoundShiftExact(q: nat, shift: nat)
    requires shift > 0
    ensures RoundShift(q * Pow2(shift), shift) == q
  {
    DivExact(q, Pow2(shift));
  }

  lemma RoundedExact(q: nat, low: nat, shift: nat)
    requires 0 < low <= shift && q * Pow2(shift) < 0x80_0000 * Pow2(low)
    ensures Rounded(q * Pow2(shift), low, shift) == q
  {
    hide Pow2, RoundShift;
    RoundShiftExact(q, shift);
  }

  lemma RoundNormal(bits: u64, x: Fields)
    requires 0 < x.exponent < 255 && x.mantissa < 0x80_0000
    requires Split64(bits) == Fields(x.negative, x.exponent + 896, x.mantissa * Pow2(29))
    ensures F64ToF32Bits(bits) == (if x.negative then 0x8000_0000 else 0) + x.exponent * 0x80_0000 + x.mantissa
  {
    Pow2Values();
    RoundedExact(x.mantissa, 29, 29);
    hide Rounded, Pow2;
  }

  lemma RoundSubnormal(bits: u64, x: Fields, k: nat)
    requires k < 23 && x.mantissa < 0x80_0000
    requires Split64(bits).negative == x.negative && Split64(bits).exponent == k + 874
    requires Split64(bits).mantissa + 0x10_0000_0000_0000 == x.mantissa * Pow2(52 - k)
    ensures F64ToF32Bits(bits) == (if x.negative then 0x8000_0000 else 0) + x.mantissa
  {
    Pow2Values();
    RoundedExact(x.mantissa, 30, 52 - k);
    hide Rounded, Pow2;
  }

  lemma RoundZero(bits: u64)
    requires Split64(bits).exponent == 0 && Split64(bits).mantissa == 0
    ensures F64ToF32Bits(bits) == if Split64(bits).negative then 0x8000_0000 else 0
  {
    Pow2Values();
    RoundedExact(0, 30, 926);
    hide Rounded, Pow2;
  }

  lemma Recompose32(h: u32)
    ensures h == (if Split32(h).negative then 0x8000_0000 else 0) + Split32(h).exponent * 0x80_0000 + Split32(h).mantissa
  {
  }

  lemma WidenedNormal(h: u32)
    requires 0 < Split32(h).exponent < 255
    ensures Split64(WidenSingle(h))
         == Fields(Split32(h).negative, Split32(h).exponent + 896, Split32(h).mantissa * Pow2(29))
  {
    hide Pow2, Join64, WidenSingle, Split64, Split32;
  }

  lemma WidenedSubnormal(h: u32) returns (k: nat)
    requires Split32(h).exponent == 0 < Split32(h).mantissa
    ensures var x, d := Split32(h), Split64(WidenSingle(h));
            && k < 23 && d.negative == x.negative && d.exponent == k + 874
            && d.mantissa + 0x10_0000_0000_0000 == x.mantissa * Pow2(52 - k)
  {
    hide Pow2, Join64, WidenSingle, Split64, Split32;
    SingleFields(h);
    Pow2ValuesWide();
    k := SubnormalTop(BINARY32, Split32(h));
  }

  lemma RoundWidened(h: u32)
    requires Split32(h).exponent < 255
    ensures F64ToF32Bits(WidenSingle(h)) == h
  {
    hide F64ToF32Bits, WidenSingle, Pow2, WideSubnormal;
    var x, bits := Split32(h), WidenSingle(h);
    Recompose32(h);
    if x.exponent > 0 {
      WidenedNormal(h);
      RoundNormal(bits, x);
    } else if x.mantissa > 0 {
      var k := WidenedSubnormal(h);
      RoundSubnormal(bits, x, k);
    } else {
      RoundZero(bits);
    }
  }

  // ----- the shortest-float tests are exact -----

  lemma HalfFoundSigned(bits: u64, h: u16)
    requires NumericEq(Binary16(h), Binary64(bits)) && Binary64(bits).Finite?
    requires h / 0x8000 == bits / 0x8000_0000_0000_0000
    ensures F64ToF16Bits(bits) == h
  {
    WidenHalfInverse(bits, h);
    TruncateWidened(h);
  }

  lemma HalfFoundZero(bits: u64)
    requires Split64(bits).exponent == 0 && Split64(bits).mantissa == 0
    ensures NumericEq(Binary16(F64ToF16Bits(bits)), Binary64(bits))
  {
    assert Split16(F64ToF16Bits(bits)) == Fields(Split64(bits).negative, 0, 0);
  }

  lemma HalfFoundInfinite(bits: u64)
    requires Split64(bits).exponent == 2047 && Split64(bits).mantissa == 0
    ensures NumericEq(Binary16(F64ToF16Bits(bits)), Binary64(bits))
  {
    assert Split16(F64ToF16Bits(bits)) == Fields(Split64(bits).negative, 31, 0);
  }

  lemma ZeroBits(bits: u64)
    requires Binary64(bits).Finite? && Binary64(bits).units == 0
    ensures Split64(bits).exponent == 0 && Split64(bits).mantissa == 0
  {
    DoubleFields(bits);
    ZeroFields(Split64(bits));
  }

  /** If any binary16 pattern equals the number, the truncating conversion finds one. */
  lemma HalfFound(bits: u64, h: u16)
    requires NumericEq(Binary16(h), Binary64(bits))
    ensures NumericEq(Binary16(F64ToF16Bits(bits)), Binary64(bits))
  {
    if Binary64(bits).Infinite? {
      HalfFoundInfinite(bits);
    } else if h / 0x8000 == bits / 0x8000_0000_0000_0000 {
      HalfFoundSigned(bits, h);
    } else {
      ZeroBits(bits);
      HalfFoundZero(bits);
    }
  }

  /** The encoder's binary16 test succeeds exactly on the numbers binary16 can hold. */
  lemma HalfTestExact(bits: u64)
    ensures NumericEq(F16BitsToF64(F64ToF16Bits(bits)), Binary64(bits))
       <==> exists h: u16 :: NumericEq(Binary16(h), Binary64(bits))
  {
    var r := F64ToF16Bits(bits);
    BackConversionIsBinary16(r);
    if h: u16 :| NumericEq(Binary16(h), Binary64(bits)) {
      HalfFound(bits, h);
    }
  }

  lemma SingleFoundSigned(bits: u64, h: u32)
    requires NumericEq(Binary32(h), Binary64(bits)) && Binary64(bits).Finite?
    requires h / 0x8000_0000 == bits / 0x8000_0000_0000_0000
    ensures F64ToF32Bits(bits) == h
  {
    WidenSingleInverse(bits, h);
    RoundWidened(h);
  }

  lemma ZeroSingle(h: u32)
    requires h == 0 || h == 0x8000_0000
    ensures Binary32(h) == Finite(h != 0, 0)
  {
    hide Pow2;
    assert Split32(h) == Fields(h != 0, 0, 0);
  }

  lemma ZeroDouble(bits: u64)
    requires Split64(bits).exponent == 0 && Split64(bits).mantissa == 0
    ensures Binary64(bits) == Finite(Split64(bits).negative, 0)
  {
    hide Pow2, Split64;
  }

  lemma SingleFoundZero(bits: u64)
    requires Split64(bits).exponent == 0 && Split64(bits).mantissa == 0
    ensures NumericEq(Binary32(F64ToF32Bits(bits)), Binary64(bits))
  {
    hide F64ToF32Bits, Binary32, Binary64, Split64;
    RoundZero(bits);
    ZeroSingle(F64ToF32Bits(bits));
    ZeroDouble(bits);
  }

  lemma SingleFoundInfinite(bits: u64)
    requires Split64(bits).exponent == 2047 && Split64(bits).mantissa == 0
    ensures NumericEq(Binary32(F64ToF32Bits(bits)), Binary64(bits))
  {
    assert Split32(F64ToF32Bits(bits)) == Fields(Split64(bits).negative, 255, 0);
  }

  lemma SingleFound(bits: u64, h: u32)
    requires NumericEq(Binary32(h), Binary64(bits))
    ensures NumericEq(Binary32(F64ToF32Bits(bits)), Binary64(bits))
  {
    if Binary64(bits).Infinite? {
      SingleFoundInfinite(bits);
    } else if h / 0x8000_0000 == bits / 0x8000_0000_0000_0000 {
      SingleFoundSigned(bits, h);
    } else {
      ZeroBits(bits);
      SingleFoundZero(bits);
    }
  }

  /** The encoder's binary32 test succeeds exactly on the numbers binary32 can hold. */
  lemma SingleTestExact(bits: u64)
    ensures NumericEq(Binary32(F64ToF32Bits(bits)), Binary64(bits))
       <==> exists h: u32 :: NumericEq(Binary32(h), Binary64(bits))
  {
    if h: u32 :| NumericEq(Binary32(h), Binary64(bits)) {
      SingleFound(bits, h);
    }
  }
}
