/**
  Float-to-integer conversion (`wasmi_core/src/value.rs`): a conversion traps by comparing with two float
  literals. Finite floats are the numbers `m * 2^e` whose significand fits the precision of the type.
*/
module Truncate {
  import opened Bits
  import opened Wrappers

  datatype Float = NaN | Infinite(negative: bool) | Finite(m: int, e: int)

  /** A float of the type whose significand has `p` bits. */
  predicate IsFloat(p: nat, f: Float) {
    f.Finite? ==> 0 - Pow2(p) < f.m < Pow2(p)
  }

  datatype TrapCode = BadConversionToInteger | IntegerOverflow

  /** One conversion: the source precision, the two literals of the check, and the range of the target. */
  datatype Conversion = Conversion(p: nat, rmin: int, rmax: int, min: int, max: int)

  const I32_MIN := -0x8000_0000
  const I64_MIN := -0x8000_0000_0000_0000

  const F32_I32 := Conversion(24, -2147483904, 2147483648, I32_MIN, 0x7fff_ffff)
  const F32_U32 := Conversion(24, -1, 4294967296, 0, 0xffff_ffff)
  const F64_I32 := Conversion(53, -2147483649, 2147483648, I32_MIN, 0x7fff_ffff)
  const F64_U32 := Conversion(53, -1, 4294967296, 0, 0xffff_ffff)
  const F32_I64 := Conversion(24, -9223373136366403584, 9223372036854775808, I64_MIN, 0x7fff_ffff_ffff_ffff)
  const F32_U64 := Conversion(24, -1, 18446744073709551616, 0, 0xffff_ffff_ffff_ffff)
  const F64_I64 := Conversion(53, -9223372036854777856, 9223372036854775808, I64_MIN, 0x7fff_ffff_ffff_ffff)
  const F64_U64 := Conversion(53, -1, 18446744073709551616, 0, 0xffff_ffff_ffff_ffff)

  /** A conversion of the source, by the significand of the float and the width and signedness of the integer. */
  predicate IsConversion(p: nat, width: nat) {
    (p == 24 || p == 53) && (width == 32 || width == 64)
  }

  function ConversionOf(p: nat, width: nat, signed: bool): Conversion
    requires IsConversion(p, width)
  {
    if p == 24 then
      if width == 32 then if signed then F32_I32 else F32_U32
      else if signed then F32_I64 else F32_U64
    else
      if width == 32 then if signed then F64_I32 else F64_U32
      else if signed then F64_I64 else F64_U64
  }

  /** The least and the greatest number of an integer type. */
  function Least(width: nat, signed: bool): int
    requires width > 0
  {
    if signed then 0 - Pow2(width - 1) else 0
  }

  function Greatest(width: nat, signed: bool): int
    requires width > 0
  {
    if signed then Pow2(width - 1) - 1 else Pow2(width) - 1
  }

  // ---------- the numbers ----------

  /** `m * 2^e <= t` */
  predicate AtMost(f: Float, t: int)
    requires f.Finite?
  {
    if f.e >= 0 then f.m * Pow2(f.e) <= t else f.m <= t * Pow2(-f.e)
  }

  /** `m * 2^e >= t` */
  predicate AtLeast(f: Float, t: int)
    requires f.Finite?
  {
    if f.e >= 0 then f.m * Pow2(f.e) >= t else f.m >= t * Pow2(-f.e)
  }

  function DivTowardZero(a: int, d: int): int
    requires d > 0
  {
    if a >= 0 then a / d else -((-a) / d)
  }

  /** The number without its fraction. */
  function Truncated(f: Float): int
    requires f.Finite?
  {
    if f.e >= 0 then f.m * Pow2(f.e) else DivTowardZero(f.m, Pow2(-f.e))
  }

  function Clamp(v: int, min: int, max: int): int {
    if v < min then min else if v > max then max else v
  }

  // ---------- the conversions ----------

  /** The comparison with a literal, as floats compare: NaN was sorted out before, infinities are extreme. */
  predicate LessEqual(f: Float, t: int)
    requires !f.NaN?
  {
    if f.Infinite? then f.negative else AtMost(f, t)
  }

  predicate GreaterEqual(f: Float, t: int)
    requires !f.NaN?
  {
    if f.Infinite? then !f.negative else AtLeast(f, t)
  }

  /** The `as` cast: it saturates. */
  function Cast(c: Conversion, f: Float): int
    requires !f.NaN?
  {
    if f.Infinite? then (if f.negative then c.min else c.max) else Clamp(Truncated(f), c.min, c.max)
  }

  function TryTruncateInto(c: Conversion, f: Float): Result<int, TrapCode> {
    if f.NaN? then Err(BadConversionToInteger)
    else if LessEqual(f, c.rmin) || GreaterEqual(f, c.rmax) then Err(IntegerOverflow)
    else Ok(Cast(c, f))
  }

  function TruncateSaturateInto(c: Conversion, f: Float): int {
    if f.NaN? then 0
    else if f.Infinite? && !f.negative then c.max
    else if f.Infinite? && f.negative then c.min
    else Cast(c, f)
  }

  // ---------- the thresholds are right ----------

  lemma DivBelow(a: nat, d: int, t: int)
    requires d > 0
    ensures a / d < t <==> a < t * d
  {
    var q, r := a / d, a % d;
    assert a == q * d + r;
    if q < t {
      MulMono(q + 1, t, d);
      Distribute(q, 1, d);
    } else {
      MulMono(t, q, d);
    }
  }

  /** Truncation does not cross an integer above zero, nor one below zero. */
  lemma TruncatedAtLeast(f: Float, t: int)
    requires f.Finite? && t > 0
    ensures AtLeast(f, t) <==> Truncated(f) >= t
  {
    hide Pow2;
    if f.e < 0 {
      var d := Pow2(-f.e);
      MulAtLeast(t, d);
      if f.m >= 0 {
        DivBelow(f.m, d, t);
      } else {
        DivBelow(-f.m, d, 0);
      }
    }
  }

  lemma TruncatedAtMost(f: Float, t: int)
    requires f.Finite? && t < 0
    ensures AtMost(f, t) <==> Truncated(f) <= t
  {
    hide Pow2;
    var g := Finite(-f.m, f.e);
    TruncatedAtLeast(g, -t);
    var d := Pow2(if f.e < 0 then -f.e else f.e);
    assert -f.m * d == -(f.m * d);
    assert (-t) * d == -(t * d);
    if f.e < 0 && f.m == 0 { DivBelow(0, d, 1); }
  }

  /** There is no float strictly between `-2^k` and the next one below it. */
  lemma Gap(p: nat, k: nat, f: Float)
    requires f.Finite? && IsFloat(p, f) && 1 <= p <= k + 1
    ensures !AtLeast(f, 0 - Pow2(k)) ==> AtMost(f, 0 - Pow2(k) - Pow2(k + 1 - p))
  {
    hide Pow2;
    if f.e < k + 1 - p {
      SmallExponent(p, k, f);
    } else if !AtLeast(f, 0 - Pow2(k)) {
      var n, g := -f.m, k + 1 - p;
      var h := f.e - g;
      PowAdd(h, g);
      PowAdd(p - 1, g);
      var steps := n * Pow2(h);
      Associate(n, Pow2(h), Pow2(g));
      assert f.m * Pow2(f.e) == -(n * Pow2(f.e));
      assert steps * Pow2(g) > Pow2(p - 1) * Pow2(g);
      if steps <= Pow2(p - 1) { MulMono(steps, Pow2(p - 1), Pow2(g)); }
      MulMono(Pow2(p - 1) + 1, steps, Pow2(g));
      Distribute(Pow2(p - 1), 1, Pow2(g));
    }
  }

  /** A float that is not a multiple of the step is not that large. */
  lemma SmallExponent(p: nat, k: nat, f: Float)
    requires f.Finite? && IsFloat(p, f) && 1 <= p <= k + 1 && f.e < k + 1 - p
    ensures AtLeast(f, 0 - Pow2(k))
  {
    hide Pow2;
    var n := -f.m;
    if f.e < 0 {
      PowTwice(-f.e - 1);
      PowTwice(k);
      PowMono(p, k + 1);
      ScaledUp(n, Pow2(-f.e), Pow2(k));
    } else {
      PowMono(p + f.e, k);
      PowAdd(p, f.e);
      ScaledDown(n, Pow2(p), Pow2(f.e));
    }
  }

  lemma ScaledUp(n: int, d: int, q: int)
    requires n < 2 * q && d >= 2 && q >= 0
    ensures -n >= (0 - q) * d
  {
    MulMono(2, d, q);
    assert (0 - q) * d == -(d * q);
  }

  lemma ScaledDown(n: int, q: int, d: int)
    requires n <= q && d >= 0
    ensures (-n) * d >= -(q * d)
  {
    MulMono(n, q, d);
    assert (-n) * d == -(n * d);
  }

  /** The upper literal is one past the target's maximum; the lower one is one below its minimum or the next float below it. */
  predicate RightThresholds(c: Conversion) {
    && c.p > 0 && c.rmax == c.max + 1 && c.max > 0
    && (c.rmin == c.min - 1 < 0 || NextBelow(c))
  }

  ghost predicate NextBelowAt(c: Conversion, k: nat) {
    c.p <= k + 1 && c.min == 0 - Pow2(k) && c.rmin == c.min - Pow2(k + 1 - c.p)
  }

  predicate NextBelow(c: Conversion) {
    (c.p == 24 && c.min == I32_MIN && c.rmin == c.min - 0x100)
    || (c.p == 24 && c.min == I64_MIN && c.rmin == c.min - 0x100_0000_0000)
    || (c.p == 53 && c.min == I64_MIN && c.rmin == c.min - 0x800)
  }

  /** The entry is that of its types: its precision, and the range of the integer. */
  lemma ThresholdsAreRight(p: nat, width: nat, signed: bool)
    requires IsConversion(p, width)
    ensures var c := ConversionOf(p, width, signed);
      RightThresholds(c) && c.p == p && c.min == Least(width, signed) && c.max == Greatest(width, signed)
  {
    PowValues();
  }

  lemma NextBelowIsGap(c: Conversion) returns (k: nat)
    requires NextBelow(c)
    ensures NextBelowAt(c, k)
  {
    PowValues();
    k := if c.min == I32_MIN then 31 else 63;
    PowAdd(8, 32);
    assert Pow2(11) == 0x800;
  }

  lemma BelowIsNotAtLeast(f: Float, t: int)
    requires f.Finite?
    ensures AtMost(f, t - 1) ==> !AtLeast(f, t)
  {
    hide Pow2;
    if f.e < 0 { Distribute(t, -1, Pow2(-f.e)); }
  }

  /** The lower literal separates as the integer just below the minimum would. */
  lemma LowerThreshold(c: Conversion, f: Float)
    requires RightThresholds(c) && f.Finite? && IsFloat(c.p, f)
    ensures AtMost(f, c.rmin) <==> Truncated(f) < c.min
  {
    hide Pow2, AtMost, AtLeast, Truncated;
    TruncatedAtMost(f, c.min - 1);
    if c.rmin != c.min - 1 {
      var k := NextBelowIsGap(c);
      Gap(c.p, k, f);
      BelowIsNotAtLeast(f, c.min);
      TruncatedAtMost(f, c.rmin);
    }
  }

  /**
    For each of the eight conversions: it succeeds exactly if the truncated number lies in the range of the integer
    type and returns that number; it traps as a bad conversion exactly on NaN, and as an overflow on everything else.
  */
  lemma ConvertsExactlyWhatFits(p: nat, width: nat, signed: bool, f: Float)
    requires IsConversion(p, width) && IsFloat(p, f)
    ensures TryTruncateInto(ConversionOf(p, width, signed), f) ==
      if f.NaN? then Err(BadConversionToInteger)
      else if f.Finite? && (if signed then 0 - Pow2(width - 1) <= Truncated(f) < Pow2(width - 1) else 0 <= Truncated(f) < Pow2(width))
      then Ok(Truncated(f))
      else Err(IntegerOverflow)
  {
    hide AtMost, AtLeast, Truncated, ConversionOf, Pow2;
    ThresholdsAreRight(p, width, signed);
    var c := ConversionOf(p, width, signed);
    if f.Finite? {
      LowerThreshold(c, f);
      TruncatedAtLeast(f, c.rmax);
    }
  }

  /**
    The saturating form never fails: NaN gives zero, and everything else the number of the integer type nearest to the
    truncated one, which is what the trapping form returns where it succeeds.
  */
  lemma SaturatingAgrees(p: nat, width: nat, signed: bool, f: Float)
    requires IsConversion(p, width) && IsFloat(p, f)
    ensures var c, min, max := ConversionOf(p, width, signed), Least(width, signed), Greatest(width, signed);
      && TruncateSaturateInto(c, f) == (
           if f.NaN? then 0
           else if f.Infinite? then (if f.negative then min else max)
           else if Truncated(f) < min then min
           else if Truncated(f) > max then max
           else Truncated(f))
      && (TryTruncateInto(c, f).Ok? ==> TryTruncateInto(c, f).value == TruncateSaturateInto(c, f))
  {
    hide TryTruncateInto, Truncated, ConversionOf, Pow2;
    ConvertsExactlyWhatFits(p, width, signed, f);
    ThresholdsAreRight(p, width, signed);
  }

  /** The gap matters: the nearest number above the single-precision literal is the minimum itself. */
  lemma LowerLiteralsAreFloats()
    ensures IsFloat(24, Finite(-0x80_0001, 8)) && Truncated(Finite(-0x80_0001, 8)) == F32_I32.rmin
    ensures IsFloat(24, Finite(-0x80_0001, 40)) && Truncated(Finite(-0x80_0001, 40)) == F32_I64.rmin
    ensures IsFloat(53, Finite(-0x10_0000_0000_0001, 11)) && Truncated(Finite(-0x10_0000_0000_0001, 11)) == F64_I64.rmin
  {
    PowValues();
    PowAdd(16, 8);
    PowAdd(8, 32);
    PowAdd(35, 18);
    assert Pow2(11) == 0x800 && Pow2(18) == 0x4_0000;
  }
}
