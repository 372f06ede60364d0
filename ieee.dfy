/**
 * The binary interchange formats binary32 and binary64 of IEEE 754-2008,
 * section 3.4: a lane holds a sign bit, a biased exponent field and a
 * trailing significand field. Decode gives the exact value a lane encodes
 * (section 3.4, items a-e): NaN, a signed infinity, or a finite real.
 * Signed zeros decode to the real 0; their sign stays visible in SignField.
 */
module Ieee {
  import opened Bits

  datatype Format = Binary32 | Binary64

  /** k: the storage width in bits. */
  function StorageWidth(fmt: Format): nat
  {
    match fmt
    case Binary32 => 32
    case Binary64 => 64
  }

  /** w: the width of the biased exponent field. */
  function ExponentWidth(fmt: Format): nat
  {
    match fmt
    case Binary32 => 8
    case Binary64 => 11
  }

  /** t: the width of the trailing significand field. */
  function TrailingWidth(fmt: Format): nat
  {
    match fmt
    case Binary32 => 23
    case Binary64 => 52
  }

  /** The exponent bias, equal to emax. */
  function Bias(fmt: Format): nat
  {
    match fmt
    case Binary32 => 127
    case Binary64 => 1023
  }

  /** The all-ones exponent field, reserved for infinities and NaNs. */
  function MaxExponentField(fmt: Format): nat
  {
    match fmt
    case Binary32 => 0xff
    case Binary64 => 0x7ff
  }

  /** 2^w: one more than the largest exponent field. */
  function ExponentRange(fmt: Format): nat
  {
    match fmt
    case Binary32 => 0x100
    case Binary64 => 0x800
  }

  /** 2^t: the weight of the lowest exponent bit, and the hidden bit of a normal number. */
  function HiddenBit(fmt: Format): nat
  {
    match fmt
    case Binary32 => 0x80_0000
    case Binary64 => 0x10_0000_0000_0000
  }

  /** 2^(k-1): the weight of the sign bit. */
  function SignWeight(fmt: Format): nat
  {
    match fmt
    case Binary32 => 0x8000_0000
    case Binary64 => 0x8000_0000_0000_0000
  }

  /** 2^k: one more than the largest lane. */
  function LaneBound(fmt: Format): nat
  {
    match fmt
    case Binary32 => 0x1_0000_0000
    case Binary64 => 0x1_0000_0000_0000_0000
  }

  predicate IsLane(fmt: Format, x: nat)
  {
    x < LaneBound(fmt)
  }

  function SignField(fmt: Format, x: nat): nat
  {
    x / SignWeight(fmt)
  }

  /** Every bit except the sign bit. */
  function MagnitudeBits(fmt: Format, x: nat): nat
  {
    x % SignWeight(fmt)
  }

  function ExponentField(fmt: Format, x: nat): nat
  {
    x / HiddenBit(fmt) % ExponentRange(fmt)
  }

  function TrailingField(fmt: Format, x: nat): nat
  {
    x % HiddenBit(fmt)
  }

  /** The lane with the given sign bit, biased exponent and trailing significand. */
  function Encode(fmt: Format, s: nat, e: nat, f: nat): nat
  {
    s * SignWeight(fmt) + e * HiddenBit(fmt) + f
  }

  /** How the widths and weights of a format fit together. */
  lemma FormatFacts(fmt: Format)
    ensures StorageWidth(fmt) == 1 + ExponentWidth(fmt) + TrailingWidth(fmt)
    ensures SignWeight(fmt) == ExponentRange(fmt) * HiddenBit(fmt)
    ensures LaneBound(fmt) == 2 * SignWeight(fmt)
    ensures MaxExponentField(fmt) == ExponentRange(fmt) - 1 == 2 * Bias(fmt) + 1
    ensures 1 <= TrailingWidth(fmt) < Bias(fmt)
  {
  }

  /** The weights are the powers of two of the widths. */
  lemma FormatPowers(fmt: Format)
    ensures LaneBound(fmt) == Pow2(StorageWidth(fmt))
    ensures SignWeight(fmt) == Pow2(StorageWidth(fmt) - 1)
    ensures HiddenBit(fmt) == Pow2(TrailingWidth(fmt))
    ensures ExponentRange(fmt) == Pow2(ExponentWidth(fmt))
  {
    Pow2Values();
  }

  /** Every lane is the encoding of its three fields. */
  lemma Fields(fmt: Format, x: nat)
    requires IsLane(fmt, x)
    ensures SignField(fmt, x) <= 1
    ensures ExponentField(fmt, x) <= MaxExponentField(fmt)
    ensures TrailingField(fmt, x) < HiddenBit(fmt)
    ensures MagnitudeBits(fmt, x) == ExponentField(fmt, x) * HiddenBit(fmt) + TrailingField(fmt, x)
    ensures x == Encode(fmt, SignField(fmt, x), ExponentField(fmt, x), TrailingField(fmt, x))
  {
    FormatFacts(fmt);
    var S, P, Q := SignWeight(fmt), HiddenBit(fmt), ExponentRange(fmt);
    QuotientBelow(x, S, 2);
    DivDiv(x, P, Q);
    assert S == P * Q;
  }

  /** The fields of an encoding are the ones it was built from. */
  lemma EncodeFields(fmt: Format, s: nat, e: nat, f: nat)
    requires s <= 1 && e <= MaxExponentField(fmt) && f < HiddenBit(fmt)
    ensures IsLane(fmt, Encode(fmt, s, e, f))
    ensures SignField(fmt, Encode(fmt, s, e, f)) == s
    ensures MagnitudeBits(fmt, Encode(fmt, s, e, f)) == e * HiddenBit(fmt) + f
    ensures ExponentField(fmt, Encode(fmt, s, e, f)) == e
    ensures TrailingField(fmt, Encode(fmt, s, e, f)) == f
  {
    FormatFacts(fmt);
    var S, P, Q := SignWeight(fmt), HiddenBit(fmt), ExponentRange(fmt);
    var x := Encode(fmt, s, e, f);
    EncodeArith(s, e, f, P, Q, S);
  }

  lemma EncodeArith(s: nat, e: nat, f: nat, p: nat, q: nat, signWeight: nat)
    requires s <= 1 && e < q && f < p && signWeight == q * p
    ensures s * signWeight + e * p + f < 2 * signWeight
    ensures (s * signWeight + e * p + f) / signWeight == s
    ensures (s * signWeight + e * p + f) % signWeight == e * p + f
    ensures (s * signWeight + e * p + f) / p % q == e
    ensures (s * signWeight + e * p + f) % p == f
  {
    var low := e * p + f;
    assert low < signWeight by {
      MulMonotone(e, q - 1, p);
      MulPred(q, p);
    }
    var x := s * signWeight + low;
    DivModUnique(x, signWeight, s, low);
    assert x == (s * q + e) * p + f by {
      assert s * signWeight == (s * q) * p;
    }
    DivModUnique(x, p, s * q + e, f);
    DivModUnique(s * q + e, q, s, e);
  }

  // ---------------------------------------------------------------------
  // The value of a lane

  datatype Value = Finite(r: real) | Infinite(negative: bool) | NaN

  /** The integer significand: the trailing field, with the hidden bit for normal numbers. */
  function Significand(fmt: Format, e: nat, f: nat): nat
  {
    if e == 0 then f else HiddenBit(fmt) + f
  }

  /** The exponent of the weight of the significand's last bit. */
  function UnitExponent(fmt: Format, e: nat): int
  {
    (if e == 0 then 1 else e) - Bias(fmt) - TrailingWidth(fmt)
  }

  /** The exact magnitude Significand * 2^UnitExponent, as a real. */
  function Magnitude(fmt: Format, e: nat, f: nat): real
  {
    var n, u := Significand(fmt, e, f), UnitExponent(fmt, e);
    if u >= 0 then (n * Pow2(u)) as real else (n as real) / (Pow2(-u) as real)
  }

  function Decode(fmt: Format, x: nat): Value
  {
    var s, e, f := SignField(fmt, x), ExponentField(fmt, x), TrailingField(fmt, x);
    if e == MaxExponentField(fmt) then
      if f == 0 then Infinite(s == 1) else NaN
    else
      Finite(if s == 1 then -Magnitude(fmt, e, f) else Magnitude(fmt, e, f))
  }

  predicate IsNaN(fmt: Format, x: nat)
  {
    ExponentField(fmt, x) == MaxExponentField(fmt) && TrailingField(fmt, x) != 0
  }

  /** A nonzero lane below the smallest normal magnitude. */
  predicate IsSubnormal(fmt: Format, x: nat)
  {
    ExponentField(fmt, x) == 0 && TrailingField(fmt, x) != 0
  }

  /** `==` on values (section 5.11): NaN equals nothing, and +0 equals -0. */
  predicate Equal(a: Value, b: Value)
  {
    match (a, b)
    case (Finite(x), Finite(y)) => x == y
    case (Infinite(n), Infinite(m)) => n == m
    case _ => false
  }

  /** `<` on values (section 5.11): NaN is unordered. */
  predicate Less(a: Value, b: Value)
  {
    match (a, b)
    case (Finite(x), Finite(y)) => x < y
    case (Infinite(n), Finite(_)) => n
    case (Finite(_), Infinite(m)) => !m
    case (Infinite(n), Infinite(m)) => n && !m
    case _ => false
  }

  // ---------------------------------------------------------------------
  // Facts about magnitudes

  lemma QuotientBelowOne(n: nat, p: nat)
    requires n < p
    ensures (n as real) / (p as real) < 1.0
  {
  }

  /** A magnitude is zero exactly when every field but the sign is zero. */
  lemma MagnitudeZero(fmt: Format, e: nat, f: nat)
    ensures Magnitude(fmt, e, f) >= 0.0
    ensures Magnitude(fmt, e, f) == 0.0 <==> e == 0 && f == 0
  {
  }

  /** Below the bias the magnitude is less than one. */
  lemma MagnitudeBelowOne(fmt: Format, e: nat, f: nat)
    requires e < Bias(fmt) && f < HiddenBit(fmt)
    ensures Magnitude(fmt, e, f) < 1.0
  {
    FormatFacts(fmt);
    FormatPowers(fmt);
    var t := TrailingWidth(fmt);
    var j := -UnitExponent(fmt, e);
    assert Pow2(t + 1) == 2 * HiddenBit(fmt);
    Pow2Monotone(t + 1, j);
    QuotientBelowOne(Significand(fmt, e, f), Pow2(j));
  }

  /** An exact quotient of integers is an integer. */
  lemma ExactQuotient(n: nat, p: nat)
    requires p > 0 && n % p == 0
    ensures (n as real) / (p as real) == (n / p) as real
  {
    var q := n / p;
    assert n == q * p;
    CastProduct(q, p);
  }

  lemma CastProduct(a: int, b: int)
    ensures (a * b) as real == (a as real) * (b as real)
  {
  }

  // ---------------------------------------------------------------------
  // Significand bits below a power of two

  /**
   * The k low bits of a lane are the k low bits of its trailing field, and
   * clearing them leaves the sign and the exponent alone.
   */
  lemma LowBits(fmt: Format, x: nat, k: nat)
    requires IsLane(fmt, x) && k <= TrailingWidth(fmt)
    ensures Pow2(k) <= HiddenBit(fmt) && HiddenBit(fmt) % Pow2(k) == 0
    ensures x % Pow2(k) == TrailingField(fmt, x) % Pow2(k)
    ensures RoundDown(x, Pow2(k))
         == Encode(fmt, SignField(fmt, x), ExponentField(fmt, x),
                   RoundDown(TrailingField(fmt, x), Pow2(k)))
  {
    Fields(fmt, x);
    FormatFacts(fmt);
    FormatPowers(fmt);
    var P := Pow2(k);
    Pow2Divides(k, TrailingWidth(fmt));
    Pow2Monotone(k, TrailingWidth(fmt));
    var R := HiddenBit(fmt) / P;
    LowBitsArith(SignField(fmt, x), ExponentField(fmt, x), TrailingField(fmt, x),
                 ExponentRange(fmt), R, P);
  }

  lemma LowBitsArith(s: nat, e: nat, f: nat, q: nat, r: nat, p: nat)
    requires p > 0
    ensures (s * (q * (r * p)) + e * (r * p) + f) % p == f % p
  {
    var c := s * q * r + e * r;
    assert s * (q * (r * p)) + e * (r * p) + f == c * p + f;
    MulDivMod(c, f, p);
  }

  /**
   * Adding 2^k - 1 to a finite lane whose k low bits are not all zero and
   * clearing those bits rounds its magnitude up to the next multiple of
   * 2^k: the sign is untouched, and a carry out of the trailing field
   * moves into the exponent field.
   */
  lemma RoundUpBits(fmt: Format, x: nat, k: nat)
    requires IsLane(fmt, x) && 1 <= k <= TrailingWidth(fmt)
    requires ExponentField(fmt, x) < MaxExponentField(fmt) && x % Pow2(k) != 0
    ensures x + Pow2(k) - 1 < LaneBound(fmt)
    ensures RoundDown(x + Pow2(k) - 1, Pow2(k)) == RoundDown(x, Pow2(k)) + Pow2(k)
    ensures
      var s, e, f, P := SignField(fmt, x), ExponentField(fmt, x), TrailingField(fmt, x), Pow2(k);
      if RoundDown(f, P) + P < HiddenBit(fmt) then
        RoundDown(x, P) + P == Encode(fmt, s, e, RoundDown(f, P) + P)
      else
        RoundDown(f, P) + P == HiddenBit(fmt) && RoundDown(x, P) + P == Encode(fmt, s, e + 1, 0)
  {
    RoundUpFits(fmt, x, k);
    RoundUpStep(x, Pow2(k));
    RoundUpCarry(fmt, x, k);
  }

  lemma RoundUpFits(fmt: Format, x: nat, k: nat)
    requires IsLane(fmt, x) && k <= TrailingWidth(fmt)
    requires ExponentField(fmt, x) < MaxExponentField(fmt)
    ensures x + Pow2(k) - 1 < LaneBound(fmt)
  {
    var e, f, P := ExponentField(fmt, x), TrailingField(fmt, x), Pow2(k);
    LowBits(fmt, x, k);
    Fields(fmt, x);
    FormatFacts(fmt);
    var HB := HiddenBit(fmt);
    assert MagnitudeBits(fmt, x) < (e + 1) * HB by {
      assert MagnitudeBits(fmt, x) == e * HB + f;
    }
    MulMonotone(e + 1, MaxExponentField(fmt), HB);
    assert MaxExponentField(fmt) * HB == SignWeight(fmt) - HB;
  }

  lemma RoundUpCarry(fmt: Format, x: nat, k: nat)
    requires IsLane(fmt, x) && k <= TrailingWidth(fmt)
    ensures
      var s, e, f, P := SignField(fmt, x), ExponentField(fmt, x), TrailingField(fmt, x), Pow2(k);
      if RoundDown(f, P) + P < HiddenBit(fmt) then
        RoundDown(x, P) + P == Encode(fmt, s, e, RoundDown(f, P) + P)
      else
        RoundDown(f, P) + P == HiddenBit(fmt) && RoundDown(x, P) + P == Encode(fmt, s, e + 1, 0)
  {
    var s, e, f, P := SignField(fmt, x), ExponentField(fmt, x), TrailingField(fmt, x), Pow2(k);
    var HB := HiddenBit(fmt);
    LowBits(fmt, x, k);
    TrailingRoundUp(fmt, x, k);
    CarryArith(SignWeight(fmt), HB, s, e, RoundDown(f, P), P, RoundDown(x, P));
  }

  /** Rounding the trailing field up to a multiple of 2^k stays within the hidden bit. */
  lemma TrailingRoundUp(fmt: Format, x: nat, k: nat)
    requires IsLane(fmt, x) && k <= TrailingWidth(fmt)
    ensures RoundDown(TrailingField(fmt, x), Pow2(k)) + Pow2(k) <= HiddenBit(fmt)
  {
    LowBits(fmt, x, k);
    Fields(fmt, x);
    NextMultiple(TrailingField(fmt, x), Pow2(k), HiddenBit(fmt));
  }

  lemma CarryArith(sw: nat, hb: nat, s: nat, e: nat, low: nat, p: nat, rd: nat)
    requires rd == s * sw + e * hb + low && low + p <= hb
    ensures low + p < hb ==> rd + p == s * sw + e * hb + (low + p)
    ensures low + p == hb ==> rd + p == s * sw + (e + 1) * hb + 0
  {
    assert (e + 1) * hb == e * hb + hb;
  }

  lemma RoundUpStep(x: nat, p: nat)
    requires p > 0 && x % p != 0
    ensures RoundDown(x + p - 1, p) == RoundDown(x, p) + p
  {
    DivModUnique(x + p - 1, p, x / p + 1, x % p - 1);
  }

  /** Below a multiple h of p, rounding f down to a multiple of p and adding p stays at or below h. */
  lemma NextMultiple(f: nat, p: nat, h: nat)
    requires p > 0 && f < h && h % p == 0
    ensures RoundDown(f, p) + p <= h
  {
    var R := h / p;
    assert h == R * p;
    QuotientBelow(f, p, R);
    MulMonotone(f / p + 1, R, p);
  }

  // ---------------------------------------------------------------------
  // Magnitudes with fractional bits

  /** In the binades from 1 up to 2^t the last k = bias + t - e significand bits are fractional. */
  lemma FractionMagnitude(fmt: Format, e: nat, g: nat, k: nat)
    requires Bias(fmt) <= e < Bias(fmt) + TrailingWidth(fmt) && k == Bias(fmt) + TrailingWidth(fmt) - e
    ensures 1 <= k <= TrailingWidth(fmt)
    ensures Magnitude(fmt, e, g) == ((HiddenBit(fmt) + g) as real) / (Pow2(k) as real)
  {
    FormatFacts(fmt);
  }

  /** Clearing the fractional bits gives the integer part of the magnitude. */
  lemma TruncatedMagnitude(fmt: Format, e: nat, f: nat, k: nat)
    requires Bias(fmt) <= e < Bias(fmt) + TrailingWidth(fmt) && k == Bias(fmt) + TrailingWidth(fmt) - e
    requires f < HiddenBit(fmt)
    ensures 1 <= k <= TrailingWidth(fmt)
    ensures Magnitude(fmt, e, f) == ((HiddenBit(fmt) + f) as real) / (Pow2(k) as real)
    ensures (HiddenBit(fmt) + f) % Pow2(k) == f % Pow2(k)
    ensures Magnitude(fmt, e, RoundDown(f, Pow2(k))) == ((HiddenBit(fmt) + f) / Pow2(k)) as real
  {
    FractionMagnitude(fmt, e, f, k);
    FractionMagnitude(fmt, e, RoundDown(f, Pow2(k)), k);
    FormatPowers(fmt);
    Pow2Divides(k, TrailingWidth(fmt));
    var P, HB := Pow2(k), HiddenBit(fmt);
    TruncArith(HB, f, P, HB / P);
    ExactQuotient(HB + RoundDown(f, P), P);
  }

  lemma TruncArith(h: nat, f: nat, p: nat, r: nat)
    requires p > 0 && h == r * p
    ensures (h + f) % p == f % p
    ensures (h + RoundDown(f, p)) % p == 0
    ensures (h + RoundDown(f, p)) / p == (h + f) / p
  {
    var a, b := f / p, f % p;
    var q := r + a;
    assert f == a * p + b;
    Distribute(r, a, p);
    assert h + f == q * p + b;
    DivModUnique(h + f, p, q, b);
    assert h + (f - b) == q * p;
    DivModUnique(h + (f - b), p, q, 0);
  }

  lemma Distribute(r: int, a: int, p: int)
    ensures (r + a) * p == r * p + a * p
    ensures (r + a + 1) * p == r * p + a * p + p
    ensures (a + 1) * p == a * p + p
  {
  }

  /** Rounding the fractional bits up instead adds one to the integer part. */
  lemma RoundedUpMagnitude(fmt: Format, e: nat, f: nat, k: nat)
    requires Bias(fmt) <= e < Bias(fmt) + TrailingWidth(fmt) && k == Bias(fmt) + TrailingWidth(fmt) - e
    requires f < HiddenBit(fmt) && f % Pow2(k) != 0
    ensures
      var P := Pow2(k);
      if RoundDown(f, P) + P < HiddenBit(fmt) then
        Magnitude(fmt, e, RoundDown(f, P) + P) == ((HiddenBit(fmt) + f) / P + 1) as real
      else
        Magnitude(fmt, e + 1, 0) == ((HiddenBit(fmt) + f) / P + 1) as real
  {
    FormatPowers(fmt);
    Pow2Divides(k, TrailingWidth(fmt));
    var P, HB := Pow2(k), HiddenBit(fmt);
    var g := RoundDown(f, P) + P;
    RoundUpArith(HB, f, P, HB / P);
    if g < HB {
      FractionMagnitude(fmt, e, g, k);
      ExactQuotient(HB + g, P);
    } else {
      NextMultiple(f, P, HB);
      CarryMagnitude(fmt, e, k, (HB + f) / P + 1);
    }
  }

  lemma RoundUpArith(h: nat, f: nat, p: nat, r: nat)
    requires p > 0 && h == r * p
    ensures (h + (RoundDown(f, p) + p)) % p == 0
    ensures (h + (RoundDown(f, p) + p)) / p == (h + f) / p + 1
    ensures RoundDown(f, p) + p == h ==> (h + f) / p + 1 == 2 * r
  {
    var a, b := f / p, f % p;
    var q := r + a;
    assert f == a * p + b;
    Distribute(r, a, p);
    assert h + f == q * p + b;
    DivModUnique(h + f, p, q, b);
    assert RoundDown(f, p) == a * p;
    assert h + (a * p + p) == (q + 1) * p;
    DivModUnique(h + (a * p + p), p, q + 1, 0);
    if a * p + p == h {
      assert (a + 1) * p == r * p;
      MulCancel(a + 1, r, p);
    }
  }

  lemma MulCancel(a: int, b: int, p: int)
    requires p > 0 && a * p == b * p
    ensures a == b
  {
    if a < b {
      MulMonotone(a + 1, b, p);
    } else if a > b {
      MulMonotone(b + 1, a, p);
    }
  }

  /** A carry into the next binade: 2^t * 2^(unit exponent + 1) is 2^(t+1) / 2^k. */
  lemma CarryMagnitude(fmt: Format, e: nat, k: nat, q: nat)
    requires Bias(fmt) <= e < Bias(fmt) + TrailingWidth(fmt) && k == Bias(fmt) + TrailingWidth(fmt) - e
    requires HiddenBit(fmt) == Pow2(TrailingWidth(fmt)) && k <= TrailingWidth(fmt)
    requires q == 2 * (HiddenBit(fmt) / Pow2(k))
    ensures Magnitude(fmt, e + 1, 0) == q as real
  {
    var HB, t := HiddenBit(fmt), TrailingWidth(fmt);
    Pow2Divides(k, t);
    if k == 1 {
      assert Pow2(1) == 2;
      assert UnitExponent(fmt, e + 1) == 0;
      assert Magnitude(fmt, e + 1, 0) == (HB * Pow2(0)) as real;
    } else {
      Pow2Divides(k - 1, t);
      assert Pow2(k) == 2 * Pow2(k - 1);
      HalfDivisor(HB, Pow2(k - 1));
      assert UnitExponent(fmt, e + 1) == -(k - 1);
      ExactQuotient(HB, Pow2(k - 1));
    }
  }

  lemma HalfDivisor(h: nat, p: nat)
    requires p > 0 && h % (2 * p) == 0
    ensures h / p == 2 * (h / (2 * p)) && h % p == 0
  {
    var r := h / (2 * p);
    assert h == (2 * r) * p;
    MulDivMod(2 * r, 0, p);
  }

  // ---------------------------------------------------------------------
  // Constants of the source, as bit patterns

  /** The float literals the kernels return, as lanes. */
  function PositiveZero(fmt: Format): nat
  {
    0
  }

  function NegativeZero(fmt: Format): nat
  {
    Encode(fmt, 1, 0, 0)
  }

  function One(fmt: Format): nat
  {
    Encode(fmt, 0, Bias(fmt), 0)
  }

  function NegativeOne(fmt: Format): nat
  {
    Encode(fmt, 1, Bias(fmt), 0)
  }

  /** +0.0: a zero value with a clear sign bit. */
  lemma PositiveZeroValue(fmt: Format)
    ensures IsLane(fmt, PositiveZero(fmt))
    ensures Decode(fmt, PositiveZero(fmt)) == Finite(0.0)
    ensures SignField(fmt, PositiveZero(fmt)) == 0
  {
    DecodeZero(fmt, 0);
  }

  /** -0.0: a zero value with the sign bit set. */
  lemma NegativeZeroValue(fmt: Format)
    ensures IsLane(fmt, NegativeZero(fmt))
    ensures Decode(fmt, NegativeZero(fmt)) == Finite(0.0)
    ensures SignField(fmt, NegativeZero(fmt)) == 1
  {
    SignedZeroValue(fmt, 1);
  }

  lemma SignedZeroValue(fmt: Format, s: nat)
    requires s <= 1
    ensures Decode(fmt, Encode(fmt, s, 0, 0)) == Finite(0.0)
    ensures SignField(fmt, Encode(fmt, s, 0, 0)) == s
    ensures IsLane(fmt, Encode(fmt, s, 0, 0))
  {
    EncodeFields(fmt, s, 0, 0);
    DecodeZero(fmt, Encode(fmt, s, 0, 0));
  }

  /** A lane whose exponent and trailing fields are zero encodes a (signed) zero. */
  lemma DecodeZero(fmt: Format, x: nat)
    requires ExponentField(fmt, x) == 0 && TrailingField(fmt, x) == 0
    ensures Decode(fmt, x) == Finite(0.0)
  {
    MagnitudeZero(fmt, 0, 0);
  }

  /** 1.0 */
  lemma OneValue(fmt: Format)
    ensures IsLane(fmt, One(fmt))
    ensures Decode(fmt, One(fmt)) == Finite(1.0)
    ensures SignField(fmt, One(fmt)) == 0
  {
    SignedOneValue(fmt, 0);
  }

  /** -1.0 */
  lemma NegativeOneValue(fmt: Format)
    ensures IsLane(fmt, NegativeOne(fmt))
    ensures Decode(fmt, NegativeOne(fmt)) == Finite(-1.0)
    ensures SignField(fmt, NegativeOne(fmt)) == 1
  {
    SignedOneValue(fmt, 1);
  }

  lemma SignedOneValue(fmt: Format, s: nat)
    requires s <= 1
    ensures IsLane(fmt, Encode(fmt, s, Bias(fmt), 0))
    ensures Decode(fmt, Encode(fmt, s, Bias(fmt), 0)) == Finite(if s == 1 then -1.0 else 1.0)
    ensures SignField(fmt, Encode(fmt, s, Bias(fmt), 0)) == s
  {
    FormatFacts(fmt);
    EncodeFields(fmt, s, Bias(fmt), 0);
    UnitMagnitude(fmt);
  }

  /** An exponent field equal to the bias with a zero trailing field is 1. */
  lemma UnitMagnitude(fmt: Format)
    ensures Magnitude(fmt, Bias(fmt), 0) == 1.0
  {
    FormatFacts(fmt);
    FormatPowers(fmt);
    assert UnitExponent(fmt, Bias(fmt)) + TrailingWidth(fmt) == 0;
  }
}
