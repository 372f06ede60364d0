/**
 * What the rounding kernels compute. Each kernel is first taken apart by
 * the three exponent bands its branches distinguish:
 *  - huge: the biased exponent is at least bias + t, so the value is an
 *    integer, an infinity or a NaN, and the lane is returned as it is;
 *  - middle: the biased exponent e lies in bias .. bias + t - 1, so the
 *    low k = bias + t - e significand bits are the fraction;
 *  - small: the biased exponent is below the bias, so |x| < 1.
 * Then the decoded result is shown to be the IEEE 754 roundToIntegral
 * result (section 5.9) in the kernel's direction, with the input's sign.
 */
module RoundTheorems {
  import opened Bits
  import opened Ieee
  import opened Round

  // ---------------------------------------------------------------------
  // The reference: rounding a real to an integer

  datatype Direction = TowardZero | TowardNegative | TowardPositive

  /** The integer a real rounds to in a direction. */
  function RoundReal(dir: Direction, v: real): int
  {
    match dir
    case TowardNegative => v.Floor
    case TowardPositive => -((-v).Floor)
    case TowardZero => if v < 0.0 then -((-v).Floor) else v.Floor
  }

  /** roundToIntegral on values: infinities and NaN are their own result. */
  function RoundValue(dir: Direction, v: Value): Value
  {
    match v
    case Finite(r) => Finite(RoundReal(dir, r) as real)
    case _ => v
  }

  /** The lane encodes an infinity or a NaN. */
  predicate IsNonFinite(fmt: Format, x: nat)
  {
    ExponentField(fmt, x) == MaxExponentField(fmt)
  }

  predicate IsIntegral(v: Value)
  {
    v.Finite? && v.r == (v.r.Floor as real)
  }

  /** The rounded integer is the nearest one in the direction, and no further. */
  lemma RoundRealBounds(dir: Direction, v: real)
    ensures dir == TowardNegative ==> RoundReal(dir, v) as real <= v < RoundReal(dir, v) as real + 1.0
    ensures dir == TowardPositive ==> RoundReal(dir, v) as real - 1.0 < v <= RoundReal(dir, v) as real
    ensures dir == TowardZero && v >= 0.0 ==> 0.0 <= RoundReal(dir, v) as real <= v < RoundReal(dir, v) as real + 1.0
    ensures dir == TowardZero && v < 0.0 ==> RoundReal(dir, v) as real - 1.0 < v <= RoundReal(dir, v) as real <= 0.0
  {
  }

  /** Integers are left alone in every direction. */
  lemma RoundRealIntegral(dir: Direction, i: int)
    ensures RoundReal(dir, i as real) == i
  {
  }

  /** The directions that move a value of sign s away from zero. */
  predicate RoundsAway(dir: Direction, s: nat)
  {
    (dir == TowardNegative && s == 1) || (dir == TowardPositive && s == 0)
  }

  /** Which directions round a lane away from zero, by its sign. */
  lemma SignCases(fmt: Format, x: nat)
    requires IsLane(fmt, x)
    ensures SignField(fmt, x) <= 1
    ensures !RoundsAway(TowardZero, SignField(fmt, x))
    ensures RoundsAway(TowardNegative, SignField(fmt, x)) <==> SignField(fmt, x) == 1
    ensures RoundsAway(TowardPositive, SignField(fmt, x)) <==> SignField(fmt, x) == 0
  {
    Fields(fmt, x);
  }

  /** The value of a finite lane, from its sign field and magnitude. */
  function SignedValue(s: nat, m: real): real
  {
    if s == 1 then -m else m
  }

  /**
   * Rounding the signed quotient n / p: an exact quotient is left alone,
   * any other is rounded to n / p or to n / p + 1 in magnitude, and is not
   * an integer.
   */
  lemma QuotientRounded(dir: Direction, s: nat, n: nat, p: nat)
    requires s <= 1 && p > 0
    ensures n % p == 0 ==> IsIntegral(Finite(SignedValue(s, (n as real) / (p as real))))
    ensures n % p == 0 ==>
      RoundReal(dir, SignedValue(s, (n as real) / (p as real))) as real == SignedValue(s, (n as real) / (p as real))
    ensures n % p != 0 ==> !IsIntegral(Finite(SignedValue(s, (n as real) / (p as real))))
    ensures n % p != 0 ==>
      RoundReal(dir, SignedValue(s, (n as real) / (p as real))) as real
      == SignedValue(s, (if RoundsAway(dir, s) then n / p + 1 else n / p) as real)
  {
    var v, q := (n as real) / (p as real), n / p;
    if n % p == 0 {
      ExactQuotient(n, p);
      IntegerRounded(dir, s, q);
    } else {
      QuotientFraction(n, p);
      FractionRounded(dir, s, v, q);
    }
  }

  lemma IntegerRounded(dir: Direction, s: nat, q: int)
    requires s <= 1
    ensures IsIntegral(Finite(SignedValue(s, q as real)))
    ensures RoundReal(dir, SignedValue(s, q as real)) as real == SignedValue(s, q as real)
  {
    RoundRealIntegral(dir, if s == 1 then -q else q);
  }

  /** A value strictly between q and q + 1, of either sign, is no integer and rounds to one of them. */
  lemma FractionRounded(dir: Direction, s: nat, v: real, q: int)
    requires s <= 1 && 0 <= q && q as real < v < (q + 1) as real
    ensures !IsIntegral(Finite(SignedValue(s, v)))
    ensures RoundReal(dir, SignedValue(s, v)) as real
         == SignedValue(s, (if RoundsAway(dir, s) then q + 1 else q) as real)
  {
    assert v.Floor == q;
    assert (-v).Floor == -q - 1;
  }

  lemma QuotientFraction(n: nat, p: nat)
    requires p > 0 && n % p != 0
    ensures (n / p) as real < (n as real) / (p as real) < (n / p + 1) as real
  {
    var q, r := n / p, n % p;
    assert (n as real) / (p as real) == (q as real) + (r as real) / (p as real);
    QuotientBelowOne(r, p);
    assert (r as real) / (p as real) > 0.0;
  }

  // ---------------------------------------------------------------------
  // Masks on lanes

  lemma MaskBits(fmt: Format, x: nat, k: nat)
    requires IsLane(fmt, x) && k <= StorageWidth(fmt)
    ensures Pow2(k) - 1 < LaneBound(fmt)
    ensures And(x, Pow2(k) - 1) == x % Pow2(k)
    ensures And(x, Not(LaneBound(fmt), Pow2(k) - 1)) == RoundDown(x, Pow2(k))
  {
    FormatPowers(fmt);
    AndLowMask(x, k);
    AndHighMask(StorageWidth(fmt), x, k);
  }

  // ---------------------------------------------------------------------
  // trunc, band by band

  lemma TruncHuge(fmt: Format, x: nat)
    requires IsLane(fmt, x) && ExponentField(fmt, x) >= Bias(fmt) + TrailingWidth(fmt)
    ensures Trunc(fmt, x) == x
  {
    RustConstants(fmt);
  }

  lemma TruncMiddle(fmt: Format, x: nat)
    requires IsLane(fmt, x)
    requires Bias(fmt) <= ExponentField(fmt, x) < Bias(fmt) + TrailingWidth(fmt)
    ensures Trunc(fmt, x) == RoundDown(x, Pow2(Bias(fmt) + TrailingWidth(fmt) - ExponentField(fmt, x)))
  {
    var k := Bias(fmt) + TrailingWidth(fmt) - ExponentField(fmt, x);
    assert k <= StorageWidth(fmt) by {
      FormatFacts(fmt);
    }
    MaskBits(fmt, x, k);
    TruncMiddleShape(fmt, x, Pow2(k) - 1);
  }

  /** The middle branch of `vapor_trunc`, with the mask written as 2^k - 1. */
  lemma TruncMiddleShape(fmt: Format, x: nat, m: nat)
    requires IsLane(fmt, x)
    requires Bias(fmt) <= ExponentField(fmt, x) < Bias(fmt) + TrailingWidth(fmt)
    requires m == Pow2(Bias(fmt) + TrailingWidth(fmt) - ExponentField(fmt, x)) - 1
    ensures m < LaneBound(fmt)
    ensures Trunc(fmt, x) == if And(x, m) == 0 then x else And(x, Not(LaneBound(fmt), m))
  {
    var w := StorageWidth(fmt);
    var k := Bias(fmt) + TrailingWidth(fmt) - ExponentField(fmt, x);
    var e: nat := w - k;
    assert Exponent(fmt, x) - (RustMaxExp(fmt) - 1) + (if IsF32(fmt) then 9 else 12) == e
        && e < MantissaDigits(fmt) + (if IsF32(fmt) then 9 else 12)
        && e >= (if IsF32(fmt) then 9 else 12) by {
      RustConstants(fmt);
      FormatFacts(fmt);
    }
    assert Shr(AllOnes(LaneBound(fmt)), e) == m by {
      FormatPowers(fmt);
      ShrOnes(w, e);
    }
    ShrBounded(AllOnes(LaneBound(fmt)), e);
  }

  lemma TruncSmall(fmt: Format, x: nat)
    requires IsLane(fmt, x) && ExponentField(fmt, x) < Bias(fmt)
    ensures Trunc(fmt, x) == Encode(fmt, SignField(fmt, x), 0, 0)
  {
    TruncSmallMask(fmt, x);
    Fields(fmt, x);
    FormatFacts(fmt);
    assert x == SignField(fmt, x) * SignWeight(fmt) + x % SignWeight(fmt);
  }

  /** Below one, the mask covers every bit but the sign. */
  lemma TruncSmallMask(fmt: Format, x: nat)
    requires IsLane(fmt, x) && ExponentField(fmt, x) < Bias(fmt)
    ensures Trunc(fmt, x) == if x % SignWeight(fmt) == 0 then x else RoundDown(x, SignWeight(fmt))
  {
    RustConstants(fmt);
    FormatFacts(fmt);
    FormatPowers(fmt);
    var w := StorageWidth(fmt);
    ShrOnes(w, 1);
    assert Shr(AllOnes(LaneBound(fmt)), 1) == SignWeight(fmt) - 1;
    MaskBits(fmt, x, w - 1);
  }

  // ---------------------------------------------------------------------
  // floor and ceil, band by band

  /** From 1 up to 2^t, `mantissa_mask >> e` keeps the k fractional bits. */
  lemma MiddleMask(fmt: Format, x: nat)
    requires IsLane(fmt, x)
    requires Bias(fmt) <= ExponentField(fmt, x) < Bias(fmt) + TrailingWidth(fmt)
    ensures Shr(MantissaMask(fmt), ExponentField(fmt, x) - Bias(fmt))
         == Pow2(Bias(fmt) + TrailingWidth(fmt) - ExponentField(fmt, x)) - 1
  {
    FormatPowers(fmt);
    ShrOnes(TrailingWidth(fmt), ExponentField(fmt, x) - Bias(fmt));
  }

  /**
   * `(x + offset) & !m` with m = 2^k - 1 and fractional bits present: with a
   * zero offset it truncates, with offset m it rounds the magnitude up.
   */
  lemma OffsetBits(fmt: Format, x: nat, k: nat, up: bool)
    requires IsLane(fmt, x) && 1 <= k <= TrailingWidth(fmt)
    requires ExponentField(fmt, x) < MaxExponentField(fmt) && x % Pow2(k) != 0
    ensures Pow2(k) - 1 < LaneBound(fmt)
    ensures And(WrappingAdd(LaneBound(fmt), x, if up then Pow2(k) - 1 else 0), Not(LaneBound(fmt), Pow2(k) - 1))
         == if up then RoundDown(x, Pow2(k)) + Pow2(k) else RoundDown(x, Pow2(k))
  {
    FormatFacts(fmt);
    if up {
      OffsetUp(fmt, x, k);
    } else {
      OffsetZero(fmt, x, k);
    }
  }

  lemma OffsetUp(fmt: Format, x: nat, k: nat)
    requires IsLane(fmt, x) && 1 <= k <= TrailingWidth(fmt)
    requires ExponentField(fmt, x) < MaxExponentField(fmt) && x % Pow2(k) != 0
    ensures Pow2(k) - 1 < LaneBound(fmt)
    ensures And(WrappingAdd(LaneBound(fmt), x, Pow2(k) - 1), Not(LaneBound(fmt), Pow2(k) - 1))
         == RoundDown(x, Pow2(k)) + Pow2(k)
  {
    var P := Pow2(k);
    RoundUpBits(fmt, x, k);
    var y := x + P - 1;
    SmallMod(y, LaneBound(fmt));
    FormatFacts(fmt);
    MaskBits(fmt, y, k);
  }

  lemma OffsetZero(fmt: Format, x: nat, k: nat)
    requires IsLane(fmt, x) && k <= TrailingWidth(fmt)
    ensures Pow2(k) - 1 < LaneBound(fmt)
    ensures And(WrappingAdd(LaneBound(fmt), x, 0), Not(LaneBound(fmt), Pow2(k) - 1)) == RoundDown(x, Pow2(k))
  {
    SmallMod(x, LaneBound(fmt));
    FormatFacts(fmt);
    MaskBits(fmt, x, k);
  }

  lemma SmallMod(a: nat, n: nat)
    requires a < n
    ensures a % n == a
  {
  }

  lemma FloorHuge(fmt: Format, x: nat)
    requires IsLane(fmt, x) && ExponentField(fmt, x) >= Bias(fmt) + TrailingWidth(fmt)
    ensures Floor(fmt, x) == x
  {
    RustConstants(fmt);
  }

  lemma CeilHuge(fmt: Format, x: nat)
    requires IsLane(fmt, x) && ExponentField(fmt, x) >= Bias(fmt) + TrailingWidth(fmt)
    ensures Ceil(fmt, x) == x
  {
    RustConstants(fmt);
  }

  lemma FloorMiddle(fmt: Format, x: nat)
    requires IsLane(fmt, x)
    requires Bias(fmt) <= ExponentField(fmt, x) < Bias(fmt) + TrailingWidth(fmt)
    ensures
      var P := Pow2(Bias(fmt) + TrailingWidth(fmt) - ExponentField(fmt, x));
      Floor(fmt, x) == if x % P == 0 then x
                       else if SignField(fmt, x) == 1 then RoundDown(x, P) + P
                       else RoundDown(x, P)
  {
    var k := Bias(fmt) + TrailingWidth(fmt) - ExponentField(fmt, x);
    FloorMiddleShape(fmt, x, Pow2(k) - 1);
    FormatFacts(fmt);
    MaskBits(fmt, x, k);
    if x % Pow2(k) != 0 {
      OffsetBits(fmt, x, k, SignField(fmt, x) == 1);
    }
  }

  /** The middle branch of `vapor_floor`, with the mask written as 2^k - 1. */
  lemma FloorMiddleShape(fmt: Format, x: nat, m: nat)
    requires IsLane(fmt, x)
    requires Bias(fmt) <= ExponentField(fmt, x) < Bias(fmt) + TrailingWidth(fmt)
    requires m == Pow2(Bias(fmt) + TrailingWidth(fmt) - ExponentField(fmt, x)) - 1
    ensures m < LaneBound(fmt)
    ensures Floor(fmt, x)
         == if And(x, m) == 0 then x
            else And(WrappingAdd(LaneBound(fmt), x, if SignField(fmt, x) == 1 then m else 0),
                     Not(LaneBound(fmt), m))
  {
    var e: nat := ExponentField(fmt, x) - Bias(fmt);
    assert m == Shr(MantissaMask(fmt), e) by {
      MiddleMask(fmt, x);
    }
    assert m < LaneBound(fmt) by {
      ShrBounded(MantissaMask(fmt), e);
      MantissaMaskBelowLane(fmt);
    }
    assert Exponent(fmt, x) - (RustMaxExp(fmt) - 1) == e && e < MantissaDigits(fmt) by {
      RustConstants(fmt);
    }
  }


  lemma CeilMiddle(fmt: Format, x: nat)
    requires IsLane(fmt, x)
    requires Bias(fmt) <= ExponentField(fmt, x) < Bias(fmt) + TrailingWidth(fmt)
    ensures
      var P := Pow2(Bias(fmt) + TrailingWidth(fmt) - ExponentField(fmt, x));
      Ceil(fmt, x) == if x % P == 0 then x
                       else if SignField(fmt, x) == 0 then RoundDown(x, P) + P
                       else RoundDown(x, P)
  {
    var k := Bias(fmt) + TrailingWidth(fmt) - ExponentField(fmt, x);
    CeilMiddleShape(fmt, x, Pow2(k) - 1);
    FormatFacts(fmt);
    MaskBits(fmt, x, k);
    if x % Pow2(k) != 0 {
      OffsetBits(fmt, x, k, SignField(fmt, x) == 0);
    }
  }

  /** The middle branch of `vapor_ceil`, with the mask written as 2^k - 1. */
  lemma CeilMiddleShape(fmt: Format, x: nat, m: nat)
    requires IsLane(fmt, x)
    requires Bias(fmt) <= ExponentField(fmt, x) < Bias(fmt) + TrailingWidth(fmt)
    requires m == Pow2(Bias(fmt) + TrailingWidth(fmt) - ExponentField(fmt, x)) - 1
    ensures m < LaneBound(fmt)
    ensures Ceil(fmt, x)
         == if And(x, m) == 0 then x
            else And(WrappingAdd(LaneBound(fmt), x, if SignField(fmt, x) == 0 then m else 0),
                     Not(LaneBound(fmt), m))
  {
    var e: nat := ExponentField(fmt, x) - Bias(fmt);
    assert m == Shr(MantissaMask(fmt), e) by {
      MiddleMask(fmt, x);
    }
    assert m < LaneBound(fmt) by {
      ShrBounded(MantissaMask(fmt), e);
      MantissaMaskBelowLane(fmt);
    }
    assert Exponent(fmt, x) - (RustMaxExp(fmt) - 1) == e && e < MantissaDigits(fmt) by {
      RustConstants(fmt);
    }
  }


  /** `x.abs() != 0.0` tests the bits below the sign. */
  lemma AbsIsZero(fmt: Format, x: nat)
    requires IsLane(fmt, x) && ExponentField(fmt, x) < MaxExponentField(fmt)
    ensures Equal(Decode(fmt, Abs(fmt, x)), Finite(0.0)) <==> MagnitudeBits(fmt, x) == 0
  {
    var e, f := ExponentField(fmt, x), TrailingField(fmt, x);
    assert Abs(fmt, x) == e * HiddenBit(fmt) + f && f < HiddenBit(fmt) by {
      Fields(fmt, x);
    }
    MagnitudeLane(fmt, e, f);
    MagnitudeZero(fmt, e, f);
    EqualFinite(Magnitude(fmt, e, f), 0.0);
  }

  lemma EqualFinite(a: real, b: real)
    ensures Equal(Finite(a), Finite(b)) <==> a == b
  {
  }

  /** The lane `e * 2^t + f` has no sign, and the fields it was built from. */
  lemma MagnitudeLane(fmt: Format, e: nat, f: nat)
    requires e < MaxExponentField(fmt) && f < HiddenBit(fmt)
    ensures Decode(fmt, e * HiddenBit(fmt) + f) == Finite(Magnitude(fmt, e, f))
    ensures e * HiddenBit(fmt) + f == 0 <==> e == 0 && f == 0
  {
    UnsignedLane(fmt, 0, e, f);
    if e != 0 {
      MulMonotone(1, e, HiddenBit(fmt));
    }
  }

  lemma UnsignedLane(fmt: Format, s: nat, e: nat, f: nat)
    requires s == 0 && e < MaxExponentField(fmt) && f < HiddenBit(fmt)
    ensures Decode(fmt, e * HiddenBit(fmt) + f) == Finite(Magnitude(fmt, e, f))
  {
    assert e * HiddenBit(fmt) + f == Encode(fmt, s, e, f);
    DecodeEncoded(fmt, s, e, f);
  }

  lemma FloorSmall(fmt: Format, x: nat)
    requires IsLane(fmt, x) && ExponentField(fmt, x) < Bias(fmt)
    ensures Floor(fmt, x) == if SignField(fmt, x) == 0 then PositiveZero(fmt)
                             else if MagnitudeBits(fmt, x) != 0 then NegativeOne(fmt)
                             else x
  {
    RustConstants(fmt);
    FormatFacts(fmt);
    AbsIsZero(fmt, x);
  }

  lemma CeilSmall(fmt: Format, x: nat)
    requires IsLane(fmt, x) && ExponentField(fmt, x) < Bias(fmt)
    ensures Ceil(fmt, x) == if SignField(fmt, x) == 1 then NegativeZero(fmt)
                            else if MagnitudeBits(fmt, x) != 0 then One(fmt)
                            else x
  {
    RustConstants(fmt);
    FormatFacts(fmt);
    Fields(fmt, x);
    AbsIsZero(fmt, x);
  }

  // ---------------------------------------------------------------------
  // The decoded results, band by band

  lemma DecodeFinite(fmt: Format, x: nat)
    requires IsLane(fmt, x) && ExponentField(fmt, x) < MaxExponentField(fmt)
    ensures Decode(fmt, x)
         == Finite(SignedValue(SignField(fmt, x), Magnitude(fmt, ExponentField(fmt, x), TrailingField(fmt, x))))
  {
  }

  /** Huge lanes are integers or not finite, so every direction leaves them alone. */
  lemma HugeValue(dir: Direction, fmt: Format, x: nat)
    requires IsLane(fmt, x) && ExponentField(fmt, x) >= Bias(fmt) + TrailingWidth(fmt)
    ensures RoundValue(dir, Decode(fmt, x)) == Decode(fmt, x)
    ensures IsNonFinite(fmt, x) || IsIntegral(Decode(fmt, x))
  {
    var e, f := ExponentField(fmt, x), TrailingField(fmt, x);
    if e < MaxExponentField(fmt) {
      var j := HugeInteger(fmt, x);
      RoundRealIntegral(dir, j);
    }
  }

  /** A finite huge lane encodes an integer. */
  lemma HugeInteger(fmt: Format, x: nat) returns (j: int)
    requires IsLane(fmt, x) && Bias(fmt) + TrailingWidth(fmt) <= ExponentField(fmt, x) < MaxExponentField(fmt)
    ensures Decode(fmt, x) == Finite(j as real)
  {
    var s, e, f := SignField(fmt, x), ExponentField(fmt, x), TrailingField(fmt, x);
    var u: nat := UnitExponent(fmt, e);
    var i := Significand(fmt, e, f) * Pow2(u);
    assert Magnitude(fmt, e, f) == i as real;
    assert s <= 1 by {
      Fields(fmt, x);
    }
    DecodeFinite(fmt, x);
    j := if s == 1 then -i else i;
  }

  /** Below one, the value is a fraction of either sign. */
  lemma SmallValue(fmt: Format, x: nat)
    requires IsLane(fmt, x) && ExponentField(fmt, x) < Bias(fmt)
    ensures Decode(fmt, x).Finite?
    ensures 0.0 <= Magnitude(fmt, ExponentField(fmt, x), TrailingField(fmt, x)) < 1.0
    ensures Magnitude(fmt, ExponentField(fmt, x), TrailingField(fmt, x)) == 0.0 <==> MagnitudeBits(fmt, x) == 0
  {
    Fields(fmt, x);
    FormatFacts(fmt);
    var e, f := ExponentField(fmt, x), TrailingField(fmt, x);
    MagnitudeBelowOne(fmt, e, f);
    MagnitudeZero(fmt, e, f);
    MagnitudeLane(fmt, e, f);
  }

  /** From one up to 2^t the value is the signed quotient n / 2^k, with n the significand. */
  lemma MiddleValue(fmt: Format, x: nat, P: nat)
    requires IsLane(fmt, x)
    requires Bias(fmt) <= ExponentField(fmt, x) < Bias(fmt) + TrailingWidth(fmt)
    requires P == Pow2(Bias(fmt) + TrailingWidth(fmt) - ExponentField(fmt, x))
    ensures SignField(fmt, x) <= 1
    ensures x % P == (HiddenBit(fmt) + TrailingField(fmt, x)) % P
    ensures Decode(fmt, x)
         == Finite(SignedValue(SignField(fmt, x), ((HiddenBit(fmt) + TrailingField(fmt, x)) as real) / (P as real)))
  {
    Fields(fmt, x);
    var e, f := ExponentField(fmt, x), TrailingField(fmt, x);
    var k := Bias(fmt) + TrailingWidth(fmt) - e;
    assert k <= TrailingWidth(fmt) by {
      FormatFacts(fmt);
    }
    LowBits(fmt, x, k);
    TruncatedMagnitude(fmt, e, f, k);
  }

  /** Clearing the fraction bits yields the signed integer part n / 2^k. */
  lemma MiddleTruncValue(fmt: Format, x: nat, P: nat)
    requires IsLane(fmt, x)
    requires Bias(fmt) <= ExponentField(fmt, x) < Bias(fmt) + TrailingWidth(fmt)
    requires P == Pow2(Bias(fmt) + TrailingWidth(fmt) - ExponentField(fmt, x))
    ensures IsLane(fmt, RoundDown(x, P)) && SignField(fmt, RoundDown(x, P)) == SignField(fmt, x)
    ensures Decode(fmt, RoundDown(x, P))
         == Finite(SignedValue(SignField(fmt, x), ((HiddenBit(fmt) + TrailingField(fmt, x)) / P) as real))
  {
    var s, e, f := SignField(fmt, x), ExponentField(fmt, x), TrailingField(fmt, x);
    var k := Bias(fmt) + TrailingWidth(fmt) - e;
    var g := RoundDown(f, P);
    assert k <= TrailingWidth(fmt) && e < MaxExponentField(fmt) by {
      FormatFacts(fmt);
    }
    assert s <= 1 && f < HiddenBit(fmt) by {
      Fields(fmt, x);
    }
    assert RoundDown(x, P) == Encode(fmt, s, e, g) && g < HiddenBit(fmt) by {
      LowBits(fmt, x, k);
    }
    assert Magnitude(fmt, e, g) == ((HiddenBit(fmt) + f) / P) as real by {
      TruncatedMagnitude(fmt, e, f, k);
    }
    EncodedInteger(fmt, s, e, g, (HiddenBit(fmt) + f) / P);
  }

  lemma DecodeEncoded(fmt: Format, s: nat, e: nat, f: nat)
    requires s <= 1 && e < MaxExponentField(fmt) && f < HiddenBit(fmt)
    ensures Decode(fmt, Encode(fmt, s, e, f)) == Finite(SignedValue(s, Magnitude(fmt, e, f)))
  {
    EncodeFields(fmt, s, e, f);
  }

  /** ... and rounding the fraction bits up yields ±(n / 2^k + 1). */
  lemma MiddleRoundUpValue(fmt: Format, x: nat, P: nat)
    requires IsLane(fmt, x)
    requires Bias(fmt) <= ExponentField(fmt, x) < Bias(fmt) + TrailingWidth(fmt)
    requires P == Pow2(Bias(fmt) + TrailingWidth(fmt) - ExponentField(fmt, x)) && x % P != 0
    ensures IsLane(fmt, RoundDown(x, P) + P) && SignField(fmt, RoundDown(x, P) + P) == SignField(fmt, x)
    ensures Decode(fmt, RoundDown(x, P) + P)
         == Finite(SignedValue(SignField(fmt, x), ((HiddenBit(fmt) + TrailingField(fmt, x)) / P + 1) as real))
  {
    var s, f := SignField(fmt, x), TrailingField(fmt, x);
    var q := (HiddenBit(fmt) + f) / P + 1;
    var r := RoundDown(x, P) + P;
    var e2, g2 := RoundUpFields(fmt, x, P);
    EncodedInteger(fmt, s, e2, g2, q);
  }

  /** The fields of a lane whose magnitude was rounded up to a multiple of P. */
  lemma RoundUpFields(fmt: Format, x: nat, P: nat) returns (e2: nat, g2: nat)
    requires IsLane(fmt, x)
    requires Bias(fmt) <= ExponentField(fmt, x) < Bias(fmt) + TrailingWidth(fmt)
    requires P == Pow2(Bias(fmt) + TrailingWidth(fmt) - ExponentField(fmt, x)) && x % P != 0
    ensures SignField(fmt, x) <= 1 && e2 < MaxExponentField(fmt) && g2 < HiddenBit(fmt)
    ensures RoundDown(x, P) + P == Encode(fmt, SignField(fmt, x), e2, g2)
    ensures Magnitude(fmt, e2, g2) == ((HiddenBit(fmt) + TrailingField(fmt, x)) / P + 1) as real
  {
    var s, e, f := SignField(fmt, x), ExponentField(fmt, x), TrailingField(fmt, x);
    var k := Bias(fmt) + TrailingWidth(fmt) - e;
    var g := RoundDown(f, P) + P;
    assert 1 <= k <= TrailingWidth(fmt) && e + 1 < MaxExponentField(fmt) by {
      FormatFacts(fmt);
    }
    assert s <= 1 && f < HiddenBit(fmt) by {
      Fields(fmt, x);
    }
    assert f % P != 0 by {
      LowBits(fmt, x, k);
    }
    e2 := if g < HiddenBit(fmt) then e else e + 1;
    g2 := if g < HiddenBit(fmt) then g else 0;
    RoundUpBits(fmt, x, k);
    RoundedUpMagnitude(fmt, e, f, k);
  }

  /** An encoding whose magnitude is the integer q. */
  lemma EncodedInteger(fmt: Format, s: nat, e: nat, g: nat, q: int)
    requires s <= 1 && e < MaxExponentField(fmt) && g < HiddenBit(fmt)
    requires Magnitude(fmt, e, g) == q as real
    ensures IsLane(fmt, Encode(fmt, s, e, g)) && SignField(fmt, Encode(fmt, s, e, g)) == s
    ensures Decode(fmt, Encode(fmt, s, e, g)) == Finite(SignedValue(s, q as real))
  {
    EncodeFields(fmt, s, e, g);
    DecodeEncoded(fmt, s, e, g);
  }

  // ---------------------------------------------------------------------
  // The kernels compute roundToIntegral

  lemma TruncCorrect(fmt: Format, x: nat)
    requires IsLane(fmt, x)
    ensures Decode(fmt, Trunc(fmt, x)) == RoundValue(TowardZero, Decode(fmt, x))
    ensures SignField(fmt, Trunc(fmt, x)) == SignField(fmt, x)
  {
    var e := ExponentField(fmt, x);
    if e >= Bias(fmt) + TrailingWidth(fmt) {
      TruncHuge(fmt, x);
      HugeValue(TowardZero, fmt, x);
    } else if e >= Bias(fmt) {
      TruncCorrectMiddle(fmt, x);
    } else {
      TruncCorrectSmall(fmt, x);
    }
  }

  lemma TruncCorrectMiddle(fmt: Format, x: nat)
    requires IsLane(fmt, x)
    requires Bias(fmt) <= ExponentField(fmt, x) < Bias(fmt) + TrailingWidth(fmt)
    ensures Decode(fmt, Trunc(fmt, x)) == RoundValue(TowardZero, Decode(fmt, x))
    ensures SignField(fmt, Trunc(fmt, x)) == SignField(fmt, x)
  {
    var P := Pow2(Bias(fmt) + TrailingWidth(fmt) - ExponentField(fmt, x));
    TruncMiddle(fmt, x);
    MiddleKernelValue(TowardZero, fmt, x, P, Trunc(fmt, x));
  }

  /**
   * From one up to 2^t the kernels return an integral input unchanged; any
   * other input loses its fraction bits, rounded up in magnitude when the
   * direction points away from zero.
   */
  lemma MiddleKernelValue(dir: Direction, fmt: Format, x: nat, P: nat, r: nat)
    requires IsLane(fmt, x)
    requires Bias(fmt) <= ExponentField(fmt, x) < Bias(fmt) + TrailingWidth(fmt)
    requires P == Pow2(Bias(fmt) + TrailingWidth(fmt) - ExponentField(fmt, x))
    requires r == if x % P == 0 then x
                  else if RoundsAway(dir, SignField(fmt, x)) then RoundDown(x, P) + P
                  else RoundDown(x, P)
    ensures Decode(fmt, r) == RoundValue(dir, Decode(fmt, x))
    ensures SignField(fmt, r) == SignField(fmt, x)
  {
    MiddleValue(fmt, x, P);
    QuotientRounded(dir, SignField(fmt, x), HiddenBit(fmt) + TrailingField(fmt, x), P);
    if x % P != 0 {
      if RoundsAway(dir, SignField(fmt, x)) {
        MiddleRoundUpValue(fmt, x, P);
      } else {
        MiddleTruncValue(fmt, x, P);
      }
    }
  }

  lemma TruncCorrectSmall(fmt: Format, x: nat)
    requires IsLane(fmt, x) && ExponentField(fmt, x) < Bias(fmt)
    ensures Decode(fmt, Trunc(fmt, x)) == RoundValue(TowardZero, Decode(fmt, x))
    ensures SignField(fmt, Trunc(fmt, x)) == SignField(fmt, x)
  {
    TruncSmall(fmt, x);
    SmallRoundedToZero(TowardZero, fmt, x, Trunc(fmt, x));
  }

  /** Below one, a signed zero of the input's sign is the result of a rounding toward zero. */
  lemma SmallRoundedToZero(dir: Direction, fmt: Format, x: nat, r: nat)
    requires IsLane(fmt, x) && ExponentField(fmt, x) < Bias(fmt)
    requires dir == TowardZero || !RoundsAway(dir, SignField(fmt, x)) || MagnitudeBits(fmt, x) == 0
    requires r == Encode(fmt, SignField(fmt, x), 0, 0)
    ensures Decode(fmt, r) == RoundValue(dir, Decode(fmt, x))
    ensures SignField(fmt, r) == SignField(fmt, x)
  {
    SmallRoundsToZero(dir, fmt, x);
    SignedZeroValue(fmt, SignField(fmt, x));
  }

  lemma SmallRoundsToZero(dir: Direction, fmt: Format, x: nat)
    requires IsLane(fmt, x) && ExponentField(fmt, x) < Bias(fmt)
    requires dir == TowardZero || !RoundsAway(dir, SignField(fmt, x)) || MagnitudeBits(fmt, x) == 0
    ensures SignField(fmt, x) <= 1
    ensures RoundValue(dir, Decode(fmt, x)) == Finite(0.0)
  {
    var s, m := SignField(fmt, x), Magnitude(fmt, ExponentField(fmt, x), TrailingField(fmt, x));
    assert s <= 1 && Decode(fmt, x) == Finite(SignedValue(s, m)) && 0.0 <= m < 1.0
        && (m == 0.0 <==> MagnitudeBits(fmt, x) == 0) by {
      Fields(fmt, x);
      SmallValue(fmt, x);
      DecodeFinite(fmt, x);
    }
    SmallRound(dir, s, m);
  }

  lemma SmallRound(dir: Direction, s: nat, m: real)
    requires s <= 1 && 0.0 <= m < 1.0
    ensures !RoundsAway(dir, s) || m == 0.0 ==> RoundReal(dir, SignedValue(s, m)) == 0
    ensures RoundsAway(dir, s) && m != 0.0 ==> RoundReal(dir, SignedValue(s, m)) == if s == 1 then -1 else 1
  {
  }

  lemma FloorCorrect(fmt: Format, x: nat)
    requires IsLane(fmt, x)
    ensures Decode(fmt, Floor(fmt, x)) == RoundValue(TowardNegative, Decode(fmt, x))
    ensures SignField(fmt, Floor(fmt, x)) == SignField(fmt, x)
  {
    var e := ExponentField(fmt, x);
    if e >= Bias(fmt) + TrailingWidth(fmt) {
      FloorHuge(fmt, x);
      HugeValue(TowardNegative, fmt, x);
    } else if e >= Bias(fmt) {
      FloorCorrectMiddle(fmt, x);
    } else {
      FloorCorrectSmall(fmt, x);
    }
  }

  lemma FloorCorrectMiddle(fmt: Format, x: nat)
    requires IsLane(fmt, x)
    requires Bias(fmt) <= ExponentField(fmt, x) < Bias(fmt) + TrailingWidth(fmt)
    ensures Decode(fmt, Floor(fmt, x)) == RoundValue(TowardNegative, Decode(fmt, x))
    ensures SignField(fmt, Floor(fmt, x)) == SignField(fmt, x)
  {
    var P := Pow2(Bias(fmt) + TrailingWidth(fmt) - ExponentField(fmt, x));
    FloorMiddle(fmt, x);
    MiddleKernelValue(TowardNegative, fmt, x, P, Floor(fmt, x));
  }

  lemma FloorCorrectSmall(fmt: Format, x: nat)
    requires IsLane(fmt, x) && ExponentField(fmt, x) < Bias(fmt)
    ensures Decode(fmt, Floor(fmt, x)) == RoundValue(TowardNegative, Decode(fmt, x))
    ensures SignField(fmt, Floor(fmt, x)) == SignField(fmt, x)
  {
    FloorSmall(fmt, x);
    SmallKernelValue(TowardNegative, fmt, x, Floor(fmt, x));
  }


  /**
   * Below one, floor and ceil return the signed zero of the input's sign,
   * unless the input is nonzero and of the sign they round away from zero;
   * then they return the one of that sign.
   */
  lemma SmallKernelValue(dir: Direction, fmt: Format, x: nat, r: nat)
    requires IsLane(fmt, x) && ExponentField(fmt, x) < Bias(fmt)
    requires r == if !RoundsAway(dir, SignField(fmt, x)) then Encode(fmt, SignField(fmt, x), 0, 0)
                  else if MagnitudeBits(fmt, x) != 0 then Encode(fmt, SignField(fmt, x), Bias(fmt), 0)
                  else x
    ensures Decode(fmt, r) == RoundValue(dir, Decode(fmt, x))
    ensures SignField(fmt, r) == SignField(fmt, x)
  {
    if !RoundsAway(dir, SignField(fmt, x)) {
      SmallRoundedToZero(dir, fmt, x, r);
    } else if MagnitudeBits(fmt, x) != 0 {
      SmallRoundedToOne(dir, fmt, x, r);
    } else {
      SmallZero(fmt, x);
      SmallRoundedToZero(dir, fmt, x, r);
    }
  }

  /** Below one, a one of the input's sign is the result of a rounding away from zero. */
  lemma SmallRoundedToOne(dir: Direction, fmt: Format, x: nat, r: nat)
    requires IsLane(fmt, x) && ExponentField(fmt, x) < Bias(fmt)
    requires RoundsAway(dir, SignField(fmt, x)) && MagnitudeBits(fmt, x) != 0
    requires r == Encode(fmt, SignField(fmt, x), Bias(fmt), 0)
    ensures Decode(fmt, r) == RoundValue(dir, Decode(fmt, x))
    ensures SignField(fmt, r) == SignField(fmt, x)
  {
    var s, m := SignField(fmt, x), Magnitude(fmt, ExponentField(fmt, x), TrailingField(fmt, x));
    assert s <= 1 by {
      Fields(fmt, x);
    }
    SignedOneValue(fmt, s);
    SmallValue(fmt, x);
    DecodeFinite(fmt, x);
    SmallRound(dir, s, m);
  }

  /** A lane with no magnitude bits is the signed zero of its sign. */
  lemma SmallZero(fmt: Format, x: nat)
    requires IsLane(fmt, x)
    ensures MagnitudeBits(fmt, x) == 0 ==> x == Encode(fmt, SignField(fmt, x), 0, 0)
  {
    Fields(fmt, x);
  }

  lemma CeilCorrect(fmt: Format, x: nat)
    requires IsLane(fmt, x)
    ensures Decode(fmt, Ceil(fmt, x)) == RoundValue(TowardPositive, Decode(fmt, x))
    ensures SignField(fmt, Ceil(fmt, x)) == SignField(fmt, x)
  {
    var e := ExponentField(fmt, x);
    if e >= Bias(fmt) + TrailingWidth(fmt) {
      CeilHuge(fmt, x);
      HugeValue(TowardPositive, fmt, x);
    } else if e >= Bias(fmt) {
      CeilCorrectMiddle(fmt, x);
    } else {
      CeilCorrectSmall(fmt, x);
    }
  }

  lemma CeilCorrectMiddle(fmt: Format, x: nat)
    requires IsLane(fmt, x)
    requires Bias(fmt) <= ExponentField(fmt, x) < Bias(fmt) + TrailingWidth(fmt)
    ensures Decode(fmt, Ceil(fmt, x)) == RoundValue(TowardPositive, Decode(fmt, x))
    ensures SignField(fmt, Ceil(fmt, x)) == SignField(fmt, x)
  {
    var P := Pow2(Bias(fmt) + TrailingWidth(fmt) - ExponentField(fmt, x));
    CeilMiddle(fmt, x);
    MiddleKernelValue(TowardPositive, fmt, x, P, Ceil(fmt, x));
  }

  lemma CeilCorrectSmall(fmt: Format, x: nat)
    requires IsLane(fmt, x) && ExponentField(fmt, x) < Bias(fmt)
    ensures Decode(fmt, Ceil(fmt, x)) == RoundValue(TowardPositive, Decode(fmt, x))
    ensures SignField(fmt, Ceil(fmt, x)) == SignField(fmt, x)
  {
    CeilSmall(fmt, x);
    SmallKernelValue(TowardPositive, fmt, x, Ceil(fmt, x));
  }


  // ---------------------------------------------------------------------
  // Fixed points and idempotence

  /** A lane is a fixed point of a kernel exactly when it is not finite or encodes an integer. */
  lemma TruncFixpoint(fmt: Format, x: nat)
    requires IsLane(fmt, x)
    ensures Trunc(fmt, x) == x <==> IsNonFinite(fmt, x) || IsIntegral(Decode(fmt, x))
  {
    var e := ExponentField(fmt, x);
    if e >= Bias(fmt) + TrailingWidth(fmt) {
      TruncHuge(fmt, x);
      HugeValue(TowardZero, fmt, x);
    } else if e >= Bias(fmt) {
      TruncFixpointMiddle(fmt, x);
    } else {
      TruncFixpointSmall(fmt, x);
    }
  }

  lemma TruncFixpointMiddle(fmt: Format, x: nat)
    requires IsLane(fmt, x)
    requires Bias(fmt) <= ExponentField(fmt, x) < Bias(fmt) + TrailingWidth(fmt)
    ensures Trunc(fmt, x) == x <==> IsNonFinite(fmt, x) || IsIntegral(Decode(fmt, x))
  {
    var P := Pow2(Bias(fmt) + TrailingWidth(fmt) - ExponentField(fmt, x));
    TruncMiddle(fmt, x);
    MiddleFixpoint(TowardZero, fmt, x, P, Trunc(fmt, x));
  }

  lemma TruncFixpointSmall(fmt: Format, x: nat)
    requires IsLane(fmt, x) && ExponentField(fmt, x) < Bias(fmt)
    ensures Trunc(fmt, x) == x <==> IsNonFinite(fmt, x) || IsIntegral(Decode(fmt, x))
  {
    TruncSmall(fmt, x);
    SmallFixpoint(TowardZero, fmt, x, Trunc(fmt, x));
  }

  lemma FloorFixpoint(fmt: Format, x: nat)
    requires IsLane(fmt, x)
    ensures Floor(fmt, x) == x <==> IsNonFinite(fmt, x) || IsIntegral(Decode(fmt, x))
  {
    var e := ExponentField(fmt, x);
    if e >= Bias(fmt) + TrailingWidth(fmt) {
      FloorHuge(fmt, x);
      HugeValue(TowardNegative, fmt, x);
    } else if e >= Bias(fmt) {
      FloorFixpointMiddle(fmt, x);
    } else {
      FloorFixpointSmall(fmt, x);
    }
  }

  lemma FloorFixpointMiddle(fmt: Format, x: nat)
    requires IsLane(fmt, x)
    requires Bias(fmt) <= ExponentField(fmt, x) < Bias(fmt) + TrailingWidth(fmt)
    ensures Floor(fmt, x) == x <==> IsNonFinite(fmt, x) || IsIntegral(Decode(fmt, x))
  {
    var P := Pow2(Bias(fmt) + TrailingWidth(fmt) - ExponentField(fmt, x));
    FloorMiddle(fmt, x);
    MiddleFixpoint(TowardNegative, fmt, x, P, Floor(fmt, x));
  }

  lemma FloorFixpointSmall(fmt: Format, x: nat)
    requires IsLane(fmt, x) && ExponentField(fmt, x) < Bias(fmt)
    ensures Floor(fmt, x) == x <==> IsNonFinite(fmt, x) || IsIntegral(Decode(fmt, x))
  {
    var r := Floor(fmt, x);
    assert r == if !RoundsAway(TowardNegative, SignField(fmt, x)) then Encode(fmt, SignField(fmt, x), 0, 0)
                else if MagnitudeBits(fmt, x) != 0 then Encode(fmt, SignField(fmt, x), Bias(fmt), 0)
                else x by {
      FloorSmall(fmt, x);
      SignCases(fmt, x);
    }
    SmallFixpoint(TowardNegative, fmt, x, r);
  }

  lemma CeilFixpoint(fmt: Format, x: nat)
    requires IsLane(fmt, x)
    ensures Ceil(fmt, x) == x <==> IsNonFinite(fmt, x) || IsIntegral(Decode(fmt, x))
  {
    var e := ExponentField(fmt, x);
    if e >= Bias(fmt) + TrailingWidth(fmt) {
      CeilHuge(fmt, x);
      HugeValue(TowardPositive, fmt, x);
    } else if e >= Bias(fmt) {
      CeilFixpointMiddle(fmt, x);
    } else {
      CeilFixpointSmall(fmt, x);
    }
  }

  lemma CeilFixpointMiddle(fmt: Format, x: nat)
    requires IsLane(fmt, x)
    requires Bias(fmt) <= ExponentField(fmt, x) < Bias(fmt) + TrailingWidth(fmt)
    ensures Ceil(fmt, x) == x <==> IsNonFinite(fmt, x) || IsIntegral(Decode(fmt, x))
  {
    var P := Pow2(Bias(fmt) + TrailingWidth(fmt) - ExponentField(fmt, x));
    CeilMiddle(fmt, x);
    MiddleFixpoint(TowardPositive, fmt, x, P, Ceil(fmt, x));
  }

  lemma CeilFixpointSmall(fmt: Format, x: nat)
    requires IsLane(fmt, x) && ExponentField(fmt, x) < Bias(fmt)
    ensures Ceil(fmt, x) == x <==> IsNonFinite(fmt, x) || IsIntegral(Decode(fmt, x))
  {
    CeilSmall(fmt, x);
    SignCases(fmt, x);
    SmallFixpoint(TowardPositive, fmt, x, Ceil(fmt, x));
  }

  /** In the middle band a kernel changes the lane exactly when fraction bits are set. */
  lemma MiddleFixpoint(dir: Direction, fmt: Format, x: nat, P: nat, r: nat)
    requires IsLane(fmt, x)
    requires Bias(fmt) <= ExponentField(fmt, x) < Bias(fmt) + TrailingWidth(fmt)
    requires P == Pow2(Bias(fmt) + TrailingWidth(fmt) - ExponentField(fmt, x))
    requires r == if x % P == 0 then x
                  else if RoundsAway(dir, SignField(fmt, x)) then RoundDown(x, P) + P
                  else RoundDown(x, P)
    ensures r == x <==> IsNonFinite(fmt, x) || IsIntegral(Decode(fmt, x))
  {
    assert !IsNonFinite(fmt, x) by {
      FormatFacts(fmt);
    }
    MiddleValue(fmt, x, P);
    QuotientRounded(dir, SignField(fmt, x), HiddenBit(fmt) + TrailingField(fmt, x), P);
  }

  /** Below one a kernel changes the lane exactly when it is not a signed zero. */
  lemma SmallFixpoint(dir: Direction, fmt: Format, x: nat, r: nat)
    requires IsLane(fmt, x) && ExponentField(fmt, x) < Bias(fmt)
    requires r == if !RoundsAway(dir, SignField(fmt, x)) then Encode(fmt, SignField(fmt, x), 0, 0)
                  else if MagnitudeBits(fmt, x) != 0 then Encode(fmt, SignField(fmt, x), Bias(fmt), 0)
                  else x
    ensures r == x <==> IsNonFinite(fmt, x) || IsIntegral(Decode(fmt, x))
  {
    var s, e, f := SignField(fmt, x), ExponentField(fmt, x), TrailingField(fmt, x);
    assert !IsNonFinite(fmt, x) by {
      FormatFacts(fmt);
    }
    assert IsIntegral(Decode(fmt, x)) <==> MagnitudeBits(fmt, x) == 0 by {
      Fields(fmt, x);
      SmallValue(fmt, x);
      DecodeFinite(fmt, x);
      SmallIntegral(s, Magnitude(fmt, e, f));
    }
    assert r == x <==> MagnitudeBits(fmt, x) == 0 by {
      Fields(fmt, x);
      SmallZero(fmt, x);
      if RoundsAway(dir, s) && MagnitudeBits(fmt, x) != 0 {
        FormatFacts(fmt);
        EncodeFields(fmt, s, Bias(fmt), 0);
      } else if MagnitudeBits(fmt, x) != 0 {
        EncodeFields(fmt, s, 0, 0);
      }
    }
  }

  lemma SmallIntegral(s: nat, m: real)
    requires s <= 1 && 0.0 <= m < 1.0
    ensures IsIntegral(Finite(SignedValue(s, m))) <==> m == 0.0
  {
  }

  /** What a kernel returns is not finite or encodes an integer. */
  lemma RoundedIsIntegral(dir: Direction, fmt: Format, x: nat, r: nat)
    requires IsLane(fmt, x) && IsLane(fmt, r)
    requires Decode(fmt, r) == RoundValue(dir, Decode(fmt, x))
    ensures IsNonFinite(fmt, r) || IsIntegral(Decode(fmt, r))
  {
    if Decode(fmt, x).Finite? {
      RoundRealIntegral(dir, RoundReal(dir, Decode(fmt, x).r));
    } else {
      FiniteDecode(fmt, r);
    }
  }

  /** A lane decodes to a finite value exactly when its exponent field is not all ones. */
  lemma FiniteDecode(fmt: Format, x: nat)
    ensures Decode(fmt, x).Finite? <==> !IsNonFinite(fmt, x)
  {
  }

  lemma TruncIdempotent(fmt: Format, x: nat)
    requires IsLane(fmt, x)
    ensures Trunc(fmt, Trunc(fmt, x)) == Trunc(fmt, x)
  {
    TruncCorrect(fmt, x);
    RoundedIsIntegral(TowardZero, fmt, x, Trunc(fmt, x));
    TruncFixpoint(fmt, Trunc(fmt, x));
  }

  lemma FloorIdempotent(fmt: Format, x: nat)
    requires IsLane(fmt, x)
    ensures Floor(fmt, Floor(fmt, x)) == Floor(fmt, x)
  {
    FloorCorrect(fmt, x);
    RoundedIsIntegral(TowardNegative, fmt, x, Floor(fmt, x));
    FloorFixpoint(fmt, Floor(fmt, x));
  }

  lemma CeilIdempotent(fmt: Format, x: nat)
    requires IsLane(fmt, x)
    ensures Ceil(fmt, Ceil(fmt, x)) == Ceil(fmt, x)
  {
    CeilCorrect(fmt, x);
    RoundedIsIntegral(TowardPositive, fmt, x, Ceil(fmt, x));
    CeilFixpoint(fmt, Ceil(fmt, x));
  }
}
