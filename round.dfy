/**
 * One lane of the rounding kernels of libvapor (src/round.rs): trunc, floor
 * and ceil for binary32 and binary64. Every kernel inspects the biased
 * exponent, builds a mask `m` of the fractional significand bits and either
 * returns its input, clears the masked bits, adds `m` before clearing them
 * (rounding the magnitude up), or returns one of the constants ±0 and ±1.
 *
 * The kernels are written here as in the source, on lanes (bit patterns);
 * their meaning is stated against the IEEE 754 operations
 * roundToIntegralTowardZero, roundToIntegralTowardNegative and
 * roundToIntegralTowardPositive (section 5.9) on the decoded values.
 */
module Round {
  import opened Bits
  import opened Ieee

  // ---------------------------------------------------------------------
  // The `Float` helper trait (src/round.rs:4-41)

  /** `<$ty>::MANTISSA_DIGITS`: the precision p, hidden bit included. */
  function RustMantissaDigits(fmt: Format): nat
  {
    match fmt
    case Binary32 => 24
    case Binary64 => 53
  }

  /** `<$ty>::MAX_EXP`: one more than emax. */
  function RustMaxExp(fmt: Format): int
  {
    match fmt
    case Binary32 => 128
    case Binary64 => 1024
  }

  /** `is_f32`: the integer lane type is four bytes wide. */
  predicate IsF32(fmt: Format): (b: bool)
    ensures b <==> fmt == Binary32
  {
    StorageWidth(fmt) / 8 == 4
  }

  /** `mantissa_digits`: the number of stored significand bits. */
  function MantissaDigits(fmt: Format): (r: nat)
    ensures r == TrailingWidth(fmt)
  {
    RustMantissaDigits(fmt) - 1
  }

  /** `mantissa_mask`: `(1 << mantissa_digits) - 1`. */
  function MantissaMask(fmt: Format): (r: nat)
    ensures r == HiddenBit(fmt) - 1
  {
    MantissaMaskValue(fmt);
    Pow2(MantissaDigits(fmt)) - 1
  }

  lemma MantissaMaskValue(fmt: Format)
    ensures Pow2(MantissaDigits(fmt)) == HiddenBit(fmt)
  {
    FormatPowers(fmt);
  }

  /** `abs().to_bits()`: the lane with its sign bit cleared. */
  function Abs(fmt: Format, x: nat): (r: nat)
    requires IsLane(fmt, x)
    ensures r == MagnitudeBits(fmt, x)
  {
    AbsValue(fmt, x);
    And(x, SignWeight(fmt) - 1)
  }

  lemma AbsValue(fmt: Format, x: nat)
    ensures And(x, SignWeight(fmt) - 1) == MagnitudeBits(fmt, x)
  {
    FormatFacts(fmt);
    FormatPowers(fmt);
    AndLowMask(x, StorageWidth(fmt) - 1);
  }

  /** `exponent`: the bits above the mantissa, once the sign is cleared. */
  function Exponent(fmt: Format, x: nat): (r: nat)
    requires IsLane(fmt, x)
    ensures r == ExponentField(fmt, x)
  {
    ExponentValue(fmt, x);
    Shr(Abs(fmt, x), MantissaDigits(fmt))
  }

  lemma ExponentValue(fmt: Format, x: nat)
    requires IsLane(fmt, x)
    ensures Shr(MagnitudeBits(fmt, x), MantissaDigits(fmt)) == ExponentField(fmt, x)
  {
    Fields(fmt, x);
    DivModUnique(MagnitudeBits(fmt, x), HiddenBit(fmt), ExponentField(fmt, x), TrailingField(fmt, x));
    MantissaMaskValue(fmt);
  }

  /** `is_sign_negative`: the sign bit is set (also for -0.0 and NaNs). */
  predicate IsSignNegative(fmt: Format, x: nat)
  {
    SignField(fmt, x) == 1
  }

  /** `is_sign_positive`: the sign bit is clear. */
  predicate IsSignPositive(fmt: Format, x: nat)
  {
    SignField(fmt, x) == 0
  }

  /** The source's constants in terms of the format: emax, and the shift b = k - t. */
  lemma RustConstants(fmt: Format)
    ensures RustMaxExp(fmt) - 1 == Bias(fmt)
    ensures RustMantissaDigits(fmt) == TrailingWidth(fmt) + 1
    ensures IsF32(fmt) <==> fmt == Binary32
    ensures (if IsF32(fmt) then 9 else 12) == StorageWidth(fmt) - TrailingWidth(fmt)
  {
  }

  lemma MantissaMaskBelowLane(fmt: Format)
    ensures MantissaMask(fmt) < LaneBound(fmt)
  {
  }

  lemma ConstantLanes(fmt: Format)
    ensures IsLane(fmt, PositiveZero(fmt)) && IsLane(fmt, NegativeZero(fmt))
    ensures IsLane(fmt, One(fmt)) && IsLane(fmt, NegativeOne(fmt))
  {
    PositiveZeroValue(fmt);
    NegativeZeroValue(fmt);
    OneValue(fmt);
    NegativeOneValue(fmt);
  }

  /** The exponent the source reads does not depend on the sign bit. */
  lemma ExponentIgnoresSign(fmt: Format, e: nat, f: nat)
    requires e <= MaxExponentField(fmt) && f < HiddenBit(fmt)
    ensures IsLane(fmt, Encode(fmt, 0, e, f)) && IsLane(fmt, Encode(fmt, 1, e, f))
    ensures Exponent(fmt, Encode(fmt, 0, e, f)) == Exponent(fmt, Encode(fmt, 1, e, f)) == e
  {
    EncodeFields(fmt, 0, e, f);
    EncodeFields(fmt, 1, e, f);
  }

  /** The mask keeps exactly the trailing significand field. */
  lemma MantissaMaskSelectsTrailing(fmt: Format, x: nat)
    ensures And(x, MantissaMask(fmt)) == TrailingField(fmt, x)
  {
    FormatPowers(fmt);
    AndLowMask(x, TrailingWidth(fmt));
  }

  // ---------------------------------------------------------------------
  // The kernels (src/round.rs:52-118)

  /** `vapor_trunc`: round toward zero. */
  function Trunc(fmt: Format, x: nat): (r: nat)
    requires IsLane(fmt, x)
    ensures IsLane(fmt, r)
  {
    var b: int := if IsF32(fmt) then 9 else 12;
    var e: int := Exponent(fmt, x) - (RustMaxExp(fmt) - 1) + b;
    if e >= MantissaDigits(fmt) + b then
      x
    else
      var e': nat := if e < b then 1 else e;
      var m := Shr(AllOnes(LaneBound(fmt)), e');
      ShrBounded(AllOnes(LaneBound(fmt)), e');
      if And(x, m) == 0 then
        x
      else
        AndBounded(x, Not(LaneBound(fmt), m));
        And(x, Not(LaneBound(fmt), m))
  }

  /** `vapor_floor`: round toward negative infinity. */
  function Floor(fmt: Format, x: nat): (r: nat)
    requires IsLane(fmt, x)
    ensures IsLane(fmt, r)
  {
    var e: int := Exponent(fmt, x) - (RustMaxExp(fmt) - 1);
    if e >= MantissaDigits(fmt) then
      x
    else if e >= 0 then
      var m := Shr(MantissaMask(fmt), e);
      ShrBounded(MantissaMask(fmt), e);
      MantissaMaskBelowLane(fmt);
      if And(x, m) == 0 then
        x
      else
        var offset := if IsSignNegative(fmt, x) then m else 0;
        var sum := WrappingAdd(LaneBound(fmt), x, offset);
        AndBounded(sum, Not(LaneBound(fmt), m));
        And(sum, Not(LaneBound(fmt), m))
    else if IsSignPositive(fmt, x) then
      ConstantLanes(fmt);
      PositiveZero(fmt)
    else if !Equal(Decode(fmt, Abs(fmt, x)), Finite(0.0)) then
      ConstantLanes(fmt);
      NegativeOne(fmt)
    else
      x
  }

  /** `vapor_ceil`: round toward positive infinity. */
  function Ceil(fmt: Format, x: nat): (r: nat)
    requires IsLane(fmt, x)
    ensures IsLane(fmt, r)
  {
    var e: int := Exponent(fmt, x) - (RustMaxExp(fmt) - 1);
    if e >= MantissaDigits(fmt) then
      x
    else if e >= 0 then
      var m := Shr(MantissaMask(fmt), e);
      ShrBounded(MantissaMask(fmt), e);
      MantissaMaskBelowLane(fmt);
      if And(x, m) == 0 then
        x
      else
        var offset := if IsSignPositive(fmt, x) then m else 0;
        var sum := WrappingAdd(LaneBound(fmt), x, offset);
        AndBounded(sum, Not(LaneBound(fmt), m));
        And(sum, Not(LaneBound(fmt), m))
    else if IsSignNegative(fmt, x) then
      ConstantLanes(fmt);
      NegativeZero(fmt)
    else if !Equal(Decode(fmt, Abs(fmt, x)), Finite(0.0)) then
      ConstantLanes(fmt);
      One(fmt)
    else
      x
  }
}
