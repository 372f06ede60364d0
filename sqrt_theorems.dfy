/**
 * What the integer machinery of src/sqrt.rs computes: which lanes take
 * which branch, the fixed-point significand and the halved exponent the
 * operand is split into, the table index, the residuals that decide the
 * rounding of the 26-bit root, and the fields of the result and of the
 * correction term.
 */
module SqrtTheorems {
  import opened Bits
  import opened Ieee
  import opened Sqrt

  // ---------------------------------------------------------------------
  // Classification by bit pattern

  /** The branch a lane takes, read off its bits. */
  lemma ClassifyBits(x: nat)
    requires IsU32(x)
    ensures Classify(x) == ReturnInput <==> x == 0 || x == 0x8000_0000 || x == 0x7f80_0000
    ensures Classify(x) == ReturnNaN <==> 0x7f80_0000 < x && x != 0x8000_0000
    ensures Classify(x) == Compute <==> 0 < x < 0x7f80_0000
  {
    var s, m := SignField(Binary32, x), MagnitudeBits(Binary32, x);
    var e, f := ExponentField(Binary32, x), TrailingField(Binary32, x);
    MagnitudeCases(x);
    MagnitudeZero(Binary32, e, f);
    if m == 0 {
      assert Classify(x) == ReturnInput;
    } else if m < 0x7f80_0000 {
      assert e < 0xff && Magnitude(Binary32, e, f) > 0.0;
      assert Classify(x) == (if s == 0 then Compute else ReturnNaN);
    } else if m == 0x7f80_0000 {
      assert Classify(x) == (if s == 0 then ReturnInput else ReturnNaN);
    } else {
      assert Classify(x) == ReturnNaN;
    }
  }

  /** The magnitude bits decide zero, infinity and NaN. */
  lemma MagnitudeCases(x: nat)
    requires IsU32(x)
    ensures SignField(Binary32, x) <= 1
    ensures x == SignField(Binary32, x) * 0x8000_0000 + MagnitudeBits(Binary32, x)
    ensures MagnitudeBits(Binary32, x) < 0x8000_0000
    ensures ExponentField(Binary32, x) == 0 && TrailingField(Binary32, x) == 0 <==> MagnitudeBits(Binary32, x) == 0
    ensures ExponentField(Binary32, x) == 0xff && TrailingField(Binary32, x) == 0 <==> MagnitudeBits(Binary32, x) == 0x7f80_0000
    ensures ExponentField(Binary32, x) == 0xff <==> MagnitudeBits(Binary32, x) >= 0x7f80_0000
  {
    Fields(Binary32, x);
    var e, f := ExponentField(Binary32, x), TrailingField(Binary32, x);
    assert MagnitudeBits(Binary32, x) == e * 0x80_0000 + f;
    if e < 0xff {
      MulMonotone(e, 0xfe, 0x80_0000);
    }
  }

  /** Among the lanes that are computed, the subnormal ones are those below 2^23. */
  lemma SubnormalBits(x: nat)
    requires IsU32(x) && Classify(x) == Compute
    ensures IsSubnormal(Binary32, x) <==> x < 0x80_0000
  {
    ClassifyBits(x);
    Fields(Binary32, x);
    assert x == ExponentField(Binary32, x) * 0x80_0000 + TrailingField(Binary32, x);
  }

  /** The NaN the source returns is a quiet NaN with a clear sign bit. */
  lemma QuietNaNValue()
    ensures IsU32(QuietNaN) && Decode(Binary32, QuietNaN) == NaN
    ensures SignField(Binary32, QuietNaN) == 0 && TrailingField(Binary32, QuietNaN) == 0x40_0000
  {
    Fields32(QuietNaN, 0, 0xff, 0x40_0000);
  }

  // ---------------------------------------------------------------------
  // The operand as an exponent and a significand

  /**
   * ix carries the exponent k and the trailing bits g, modulo 2^32. After
   * the rescale of a subnormal operand k is zero or negative, and then
   * the pattern has wrapped around.
   */
  predicate Represents(ix: nat, k: int, g: nat)
  {
    -127 <= k <= 255 && g < 0x80_0000 && ix == (k * 0x80_0000 + g) % U32Bound
  }

  /** The pattern's low 24 bits hold the exponent's last bit and g; above them sits k modulo 512. */
  lemma RepresentedBits(ix: nat, k: int, g: nat)
    requires Represents(ix, k, g)
    ensures ix == (k % 512) * 0x80_0000 + g
    ensures ix / 0x80_0000 == k % 512
    ensures ix % 0x100_0000 == (k % 2) * 0x80_0000 + g
  {
    var a := k * 0x80_0000 + g;
    assert a == (k / 512) * U32Bound + ((k % 512) * 0x80_0000 + g);
    MulMonotone(k % 512, 511, 0x80_0000);
    DivModUnique(a, U32Bound, k / 512, (k % 512) * 0x80_0000 + g);
    DivModUnique(ix, 0x80_0000, k % 512, g);
    ModOfMod(k, 2, 256);
    assert ix == (k % 512 / 2) * 0x100_0000 + ((k % 512 % 2) * 0x80_0000 + g);
    DivModUnique(ix, 0x100_0000, k % 512 / 2, (k % 2) * 0x80_0000 + g);
  }

  /**
   * `m` is the significand 1.g as a fixed-point number: 2.30 when the
   * exponent is odd, 1.31 when it is even (src/sqrt.rs:56-61).
   */
  lemma MantissaOfRepresented(ix: nat, k: int, g: nat)
    requires Represents(ix, k, g)
    ensures FixedPointMantissa(ix) == if k % 2 == 1 then 0x4000_0000 + g * 0x80 else 0x8000_0000 + g * 0x100
    ensures 0x4000_0000 <= FixedPointMantissa(ix) < U32Bound
  {
    RepresentedBits(ix, k, g);
    Pow2Small();
    assert And(ix, 0x80_0000) == (k % 2) * 0x80_0000 by {
      AndFieldMask(ix, 1, 23);
      DivModUnique(ix / 0x80_0000, 2, k % 512 / 2, k % 2) by {
        ModOfMod(k, 2, 256);
      }
    }
    var low := ix % 0x100_0000;
    if k % 2 == 1 {
      assert Shl(U32Bound, ix, 7) % 0x8000_0000 == low * 0x80 by {
        ModOfMod(ix * 0x80, 0x8000_0000, 2);
        ModScaled(ix, 0x80, 0x100_0000);
      }
      AndLowMask(Shl(U32Bound, ix, 7), 31);
    } else {
      assert Shl(U32Bound, ix, 8) == g * 0x100 by {
        ModScaled(ix, 0x100, 0x100_0000);
      }
      OrDisjoint(g * 0x100, 1, 31);
    }
  }

  /** `i`: the exponent's last bit, then the six leading trailing bits (src/sqrt.rs:68). */
  lemma SeedIndexOfRepresented(ix: nat, k: int, g: nat)
    requires Represents(ix, k, g)
    ensures SeedIndex(ix) == (k % 2) * 64 + g / 0x2_0000
    ensures SeedIndex(ix) < 64 <==> k % 2 == 0
  {
    RepresentedBits(ix, k, g);
    Pow2Small();
    var low := ix % 0x100_0000;
    assert low == (ix / 0x2_0000 % 128) * 0x2_0000 + ix % 0x2_0000 by {
      DivDiv(ix, 0x2_0000, 128);
    }
    DivModUnique(low, 0x2_0000, ix / 0x2_0000 % 128, ix % 0x2_0000);
    MulDivMod((k % 2) * 64, g, 0x2_0000);
  }

  /**
   * `ey` keeps bits 23-30 of (ix >> 1) + 127 * 2^22: half of the biased
   * exponent plus 127, rounded down, modulo 256, in the exponent field.
   */
  lemma HalfExponentValue(ix: nat)
    requires IsU32(ix)
    ensures HalfExponent(ix) == ((ix / 0x80_0000 + 127) / 2 % 256) * 0x80_0000
    ensures HalfExponent(ix) % 0x80_0000 == 0 && HalfExponent(ix) < 0x8000_0000
  {
    var q, r := ix / 0x80_0000, ix % 0x80_0000;
    var Q := q + 127;
    var sum := WrappingAdd(U32Bound, Shr(ix, 1), Shr(0x3f80_0000, 1));
    assert sum == (Q % 1024) * 0x40_0000 + r / 2 by {
      HalvedSum(ix, q, r);
    }
    assert sum / 0x80_0000 % 256 == Q / 2 % 256 by {
      HalvedField(Q, r / 2, sum);
    }
    assert HalfExponent(ix) == And(sum, 0x7f80_0000);
    ExponentMask(sum);
    var h := Q / 2 % 256;
    MulMonotone(h, 255, 0x80_0000);
    MulDivMod(h, 0, 0x80_0000);
  }

  /** `& 0x7f800000` keeps the exponent field in place. */
  lemma ExponentMask(a: nat)
    ensures And(a, 0x7f80_0000) == a / 0x80_0000 % 256 * 0x80_0000
  {
    var p, q := Pow2(23), Pow2(8);
    assert p == 0x80_0000 && q == 0x100 by {
      Pow2Small();
    }
    AndFieldMask(a, 8, 23);
  }

  lemma HalvedSum(ix: nat, q: nat, r: nat)
    requires IsU32(ix) && q == ix / 0x80_0000 && r == ix % 0x80_0000
    ensures WrappingAdd(U32Bound, Shr(ix, 1), Shr(0x3f80_0000, 1)) == ((q + 127) % 1024) * 0x40_0000 + r / 2
  {
    Pow2Small();
    assert Pow2(1) == 2 by {
      Pow2Byte();
    }
    DivModUnique(ix, 2, q * 0x40_0000 + r / 2, r % 2);
    DivModUnique(0x3f80_0000, 2, 0x1fc0_0000, 0);
    var Q := q + 127;
    var a := Q * 0x40_0000 + r / 2;
    assert a == (Q / 1024) * U32Bound + ((Q % 1024) * 0x40_0000 + r / 2);
    MulMonotone(Q % 1024, 1023, 0x40_0000);
    DivModUnique(a, U32Bound, Q / 1024, (Q % 1024) * 0x40_0000 + r / 2);
  }

  lemma HalvedField(Q: nat, h: nat, sum: nat)
    requires h < 0x40_0000 && sum == (Q % 1024) * 0x40_0000 + h
    ensures sum / 0x80_0000 % 256 == Q / 2 % 256
  {
    var Q' := Q % 1024;
    assert Q' == (Q / 2 % 512) * 2 + Q % 2 by {
      DivDiv(Q, 2, 512);
    }
    DivModUnique(sum, 0x80_0000, Q / 2 % 512, (Q % 2) * 0x40_0000 + h);
    ModOfMod(Q / 2, 256, 2);
  }

  /** For a represented operand, ey is the exponent field (k + 127) / 2 in place. */
  lemma HalfExponentOfRepresented(ix: nat, k: int, g: nat)
    requires Represents(ix, k, g)
    ensures HalfExponent(ix) == ((k + 127) / 2) * 0x80_0000
    ensures 0 <= (k + 127) / 2 <= 191
  {
    RepresentedBits(ix, k, g);
    HalfExponentValue(ix);
    HalfOfWrapped(k);
  }

  /** Halving the biased exponent undoes the wrap of a negative k. */
  lemma HalfOfWrapped(k: int)
    requires -127 <= k <= 255
    ensures (k % 512 + 127) / 2 % 256 == (k + 127) / 2
    ensures 0 <= (k + 127) / 2 <= 191
  {
    if k >= 0 {
      DivModUnique(k, 512, 0, k);
      DivModUnique((k + 127) / 2, 256, 0, (k + 127) / 2);
    } else {
      DivModUnique(k, 512, -1, k + 512);
      MulDivMod(256, k + 127, 2);
      MulDivMod(1, (k + 127) / 2, 256);
    }
  }

  // ---------------------------------------------------------------------
  // The value the operand stands for

  /** n * 2^j as a real, for any integer j. */
  function Scaled(n: nat, j: int): real
    decreases if j >= 0 then j else -j
  {
    if j == 0 then n as real else if j > 0 then 2.0 * Scaled(n, j - 1) else Scaled(n, j + 1) / 2.0
  }

  lemma ScaledStep(n: nat, j: int)
    ensures Scaled(n, j) == 2.0 * Scaled(n, j - 1)
  {
  }

  lemma {:induction false} ScaledDouble(n: nat, j: int)
    ensures Scaled(2 * n, j) == 2.0 * Scaled(n, j)
    decreases if j >= 0 then j else -j
  {
    if j > 0 {
      ScaledDouble(n, j - 1);
    } else if j < 0 {
      ScaledDouble(n, j + 1);
    }
  }

  /** Moving c factors of two from the power into the integer factor. */
  lemma {:induction false} ScaledShift(n: nat, j: int, c: nat)
    ensures Scaled(n, j) == Scaled(n * Pow2(c), j - c)
    decreases c
  {
    if c > 0 {
      var p := n * Pow2(c - 1);
      ScaledShift(n, j, c - 1);
      ScaledStep(p, j - c + 1);
      ScaledDouble(p, j - c);
      assert 2 * p == n * Pow2(c);
    }
  }

  lemma {:induction false} ScaledNatural(n: nat, u: nat)
    ensures Scaled(n, u) == (n * Pow2(u)) as real
  {
    if u > 0 {
      ScaledNatural(n, u - 1);
      assert n * Pow2(u) == 2 * (n * Pow2(u - 1));
    }
  }

  lemma {:induction false} ScaledNegative(n: nat, d: nat)
    ensures Scaled(n, -(d as int)) == (n as real) / (Pow2(d) as real)
  {
    if d > 0 {
      var j: int := 1 - d;
      ScaledNegative(n, d - 1);
      ScaledStep(n, j);
      var a := Pow2(d - 1) as real;
      assert Pow2(d) as real == 2.0 * a;
      assert ((n as real) / a) / 2.0 == (n as real) / (2.0 * a);
    }
  }

  /** (2^23 + g) * 2^(k - 150): a normal binary32 value with exponent field k, for any k. */
  function VirtualValue(k: int, g: nat): real
  {
    Scaled(0x80_0000 + g, k - 150)
  }

  lemma NormalMagnitude(e: nat, f: nat)
    requires 1 <= e
    ensures Magnitude(Binary32, e, f) == VirtualValue(e, f)
  {
    var n := 0x80_0000 + f;
    if e >= 150 {
      ScaledNatural(n, e - 150);
    } else {
      ScaledNegative(n, 150 - e);
    }
  }

  /** A positive normal operand is used as it is and stands for its own value. */
  lemma NormalOperand(x: nat, product: nat)
    requires IsU32(x) && IsU32(product)
    requires Classify(x) == Compute && !IsSubnormal(Binary32, x)
    ensures 1 <= ExponentField(Binary32, x) <= 254
    ensures Operand(x, product) == x
    ensures Represents(x, ExponentField(Binary32, x), TrailingField(Binary32, x))
    ensures Decode(Binary32, x) == Finite(VirtualValue(ExponentField(Binary32, x), TrailingField(Binary32, x)))
  {
    var e, f := ExponentField(Binary32, x), TrailingField(Binary32, x);
    ClassifyBits(x);
    MagnitudeCases(x);
    SubnormalBits(x);
    Fields(Binary32, x);
    assert x == e * 0x80_0000 + f;
    DivModUnique(x, U32Bound, 0, x);
    NormalMagnitude(e, f);
  }

  /**
   * A positive subnormal operand: when `product` holds x * 2^23, a normal
   * number, taking 23 off its exponent field leaves a pattern that stands
   * for x with an exponent of zero or below.
   */
  lemma RescaledOperand(x: nat, product: nat)
    requires IsU32(x) && IsU32(product)
    requires Classify(x) == Compute && IsSubnormal(Binary32, x)
    requires 0x80_0000 <= product < 0x7f80_0000
    requires Decode(Binary32, product).Finite?
    requires Decode(Binary32, product).r == Decode(Binary32, x).r * 8388608.0
    ensures Represents(Operand(x, product), ExponentField(Binary32, product) - 23, TrailingField(Binary32, product))
    ensures Decode(Binary32, x) == Finite(VirtualValue(ExponentField(Binary32, product) - 23, TrailingField(Binary32, product)))
  {
    var k: int, f := ExponentField(Binary32, product) - 23, TrailingField(Binary32, product);
    RescaledPattern(x, product);
    var v := Decode(Binary32, x).r;
    assert v == VirtualValue(k, f) by {
      RescaledValue(product, v);
    }
  }

  /** Taking 23 off a normal exponent field, modulo 2^32. */
  lemma RescaledPattern(x: nat, product: nat)
    requires IsU32(x) && IsU32(product) && IsSubnormal(Binary32, x)
    requires 0x80_0000 <= product < 0x7f80_0000
    ensures Represents(Operand(x, product), ExponentField(Binary32, product) - 23, TrailingField(Binary32, product))
  {
    var e, f := ExponentField(Binary32, product), TrailingField(Binary32, product);
    assert product == e * 0x80_0000 + f && f < 0x80_0000 && e <= 0xff by {
      Fields(Binary32, product);
      MagnitudeCases(product);
    }
    var k: int := e as int - 23;
    assert product - 23 * 0x80_0000 == k * 0x80_0000 + f;
    SubnormalOperand(x, product);
  }

  /** For a subnormal x the operand is `product - (23 << 23)`, wrapping. */
  lemma SubnormalOperand(x: nat, product: nat)
    requires IsU32(x) && IsU32(product) && IsSubnormal(Binary32, x)
    ensures Operand(x, product) == (product - 23 * 0x80_0000) % U32Bound
  {
    assert Shl(U32Bound, 23, 23) == 23 * 0x80_0000 by {
      Pow2Small();
      DivModUnique(23 * 0x80_0000, U32Bound, 0, 23 * 0x80_0000);
    }
  }

  /** A normal product equal to v * 2^23 has v = (2^23 + f) * 2^(e - 173). */
  lemma RescaledValue(product: nat, v: real)
    requires 0x80_0000 <= product < 0x7f80_0000
    requires Decode(Binary32, product).Finite? && Decode(Binary32, product).r == v * 8388608.0
    ensures v == VirtualValue(ExponentField(Binary32, product) - 23, TrailingField(Binary32, product))
  {
    var e, f := ExponentField(Binary32, product), TrailingField(Binary32, product);
    var w := Decode(Binary32, product).r;
    assert 1 <= e <= 254 && w == VirtualValue(e, f) by {
      MagnitudeCases(product);
      NormalMagnitude(e, f);
    }
    Unscale(v, w, 0x80_0000 + f, e as int - 173, e as int - 150);
  }

  lemma Unscale(v: real, w: real, n: nat, i: int, j: int)
    requires j == i + 23 && Scaled(n, j) == w && w == v * 8388608.0
    ensures v == Scaled(n, i)
  {
    ScaledUp23(n, i);
  }

  /** Twenty-three doublings. */
  lemma ScaledUp23(n: nat, i: int)
    ensures Scaled(n, i + 23) == 8388608.0 * Scaled(n, i)
  {
    ScaledStep(n, i + 1);
    ScaledStep(n, i + 2);
    ScaledStep(n, i + 3);
    ScaledStep(n, i + 4);
    ScaledStep(n, i + 5);
    ScaledStep(n, i + 6);
    ScaledStep(n, i + 7);
    ScaledStep(n, i + 8);
    ScaledStep(n, i + 9);
    ScaledStep(n, i + 10);
    ScaledStep(n, i + 11);
    ScaledStep(n, i + 12);
    ScaledStep(n, i + 13);
    ScaledStep(n, i + 14);
    ScaledStep(n, i + 15);
    ScaledStep(n, i + 16);
    ScaledStep(n, i + 17);
    ScaledStep(n, i + 18);
    ScaledStep(n, i + 19);
    ScaledStep(n, i + 20);
    ScaledStep(n, i + 21);
    ScaledStep(n, i + 22);
    ScaledStep(n, i + 23);
  }

  /**
   * The operand's value is m * 2^(2 * ey - 284) = (m / 2^30) * 4^(ey - 127)
   * with m / 2^30 in [1, 4): the square root of the value has the biased
   * exponent ey, the field that `ey` holds.
   */
  lemma ValueSplit(ix: nat, k: int, g: nat)
    requires Represents(ix, k, g)
    ensures VirtualValue(k, g) == Scaled(FixedPointMantissa(ix), 2 * ((k + 127) / 2) - 284)
    ensures 0x4000_0000 <= FixedPointMantissa(ix) < U32Bound
  {
    var c: nat := if k % 2 == 1 then 7 else 8;
    MantissaFactor(ix, k, g, c);
    HalfParity(k);
    ScaledSplit(0x80_0000 + g, k - 150, c, FixedPointMantissa(ix), 2 * ((k + 127) / 2) - 284);
  }

  lemma MantissaFactor(ix: nat, k: int, g: nat, c: nat)
    requires Represents(ix, k, g) && c == if k % 2 == 1 then 7 else 8
    ensures FixedPointMantissa(ix) == (0x80_0000 + g) * Pow2(c)
    ensures 0x4000_0000 <= FixedPointMantissa(ix) < U32Bound
  {
    MantissaOfRepresented(ix, k, g);
    Pow2Small();
  }

  lemma ScaledSplit(n: nat, i: int, c: nat, m: nat, j: int)
    requires m == n * Pow2(c) && j == i - c
    ensures Scaled(n, i) == Scaled(m, j)
  {
    ScaledShift(n, i, c);
  }

  lemma HalfParity(k: int)
    ensures 2 * ((k + 127) / 2) == if k % 2 == 1 then k + 127 else k + 126
  {
  }

  // ---------------------------------------------------------------------
  // The rounding decision (src/sqrt.rs:80-84)

  /** Two wrapping subtractions of reduced operands: s - (M - S) modulo 2^32. */
  lemma WrappedDifference(s: nat, M: nat, S: nat)
    requires IsU32(s)
    ensures WrappingSub(U32Bound, s, WrappingSub(U32Bound, M % U32Bound, S % U32Bound)) ==
      (S + s - M) % U32Bound
  {
    ModReduce(M, S, U32Bound);
    ModReduce(M % U32Bound, S, U32Bound);
    ModReduce(s, M - S, U32Bound);
  }

  /** Two wrapping additions: d + s + 1 modulo 2^32, for d reduced from D. */
  lemma WrappedSuccessor(s: nat, d: nat, D: int)
    requires d == D % U32Bound
    ensures WrappingAdd(U32Bound, WrappingAdd(U32Bound, d, s), 1) == (D + s + 1) % U32Bound
  {
    ModReduce(d + s, -1, U32Bound);
    ModReduce(D, -(s + 1), U32Bound);
  }

  /** The top bit of a reduced i32 value is its sign. */
  lemma WrappedSign(D: int)
    requires -0x8000_0000 <= D < 0x8000_0000
    ensures Shr(D % U32Bound, 31) == if D < 0 then 1 else 0
  {
    Pow2Small();
    if D < 0 {
      DivModUnique(D, U32Bound, -1, D + U32Bound);
      DivModUnique(D + U32Bound, 0x8000_0000, 1, D + 0x8000_0000);
    } else {
      DivModUnique(D, U32Bound, 0, D);
      DivModUnique(D, 0x8000_0000, 0, D);
    }
  }

  /** A value strictly inside (-2^32, 2^32) reduces to zero only when it is zero. */
  lemma WrappedZero(E: int)
    requires -0x1_0000_0000 < E < 0x1_0000_0000
    ensures E % U32Bound == 0 <==> E == 0
  {
    if E < 0 {
      DivModUnique(E, U32Bound, -1, E + U32Bound);
    } else {
      DivModUnique(E, U32Bound, 0, E);
    }
  }

  /**
   * With M = m * 2^16, `d1` is s^2 + s - M and `d2` is (s + 1)^2 - M,
   * both modulo 2^32.
   */
  lemma ResidualValues(m: nat, s: nat)
    requires IsU32(m) && IsU32(s)
    ensures Residual(m, s) == (s * s + s - m * 0x1_0000) % U32Bound
    ensures NextResidual(s, Residual(m, s)) == ((s + 1) * (s + 1) - m * 0x1_0000) % U32Bound
  {
    assert Shl(U32Bound, m, 16) == m * 0x1_0000 % U32Bound by {
      Pow2Small();
    }
    WrappedDifference(s, m * 0x1_0000, s * s);
    WrappedSuccessor(s, Residual(m, s), s * s + s - m * 0x1_0000);
    assert (s + 1) * (s + 1) == s * s + 2 * s + 1;
  }

  /** The midpoint test in integers: s^2 + s < M exactly when (s + 1/2)^2 < M. */
  lemma MidpointBelow(s: nat, M: int)
    ensures s * s + s < M <==> (2 * s + 1) * (2 * s + 1) < 4 * M
  {
    assert (2 * s + 1) * (2 * s + 1) == 4 * (s * s) + 4 * s + 1;
  }

  /**
   * Once the residual s^2 + s - M fits in an i32, the top bit of `d1` that
   * rounds s up is set exactly when the midpoint s + 1/2 lies below the
   * exact root sqrt(M): (2s + 1)^2 < 4M.
   */
  lemma RoundingBit(m: nat, s: nat)
    requires IsU32(m) && IsU32(s)
    requires -0x8000_0000 <= s * s + s - m * 0x1_0000 < 0x8000_0000
    ensures Shr(Residual(m, s), 31) <= 1
    ensures Shr(Residual(m, s), 31) == 1 <==> (2 * s + 1) * (2 * s + 1) < 4 * (m * 0x1_0000)
  {
    ResidualValues(m, s);
    WrappedSign(s * s + s - m * 0x1_0000);
    MidpointBelow(s, m * 0x1_0000);
  }

  /**
   * Once (s + 1)^2 - M fits in 32 bits, `d2` is zero exactly when s + 1 is
   * the exact root of M: then `tiny` is zero and the result is exact.
   */
  lemma ExactnessTest(m: nat, s: nat)
    requires IsU32(m) && IsU32(s)
    requires -0x1_0000_0000 < (s + 1) * (s + 1) - m * 0x1_0000 < 0x1_0000_0000
    ensures NextResidual(s, Residual(m, s)) == 0 <==> (s + 1) * (s + 1) == m * 0x1_0000
  {
    ResidualValues(m, s);
    WrappedZero((s + 1) * (s + 1) - m * 0x1_0000);
  }

  // ---------------------------------------------------------------------
  // The result and the correction term (src/sqrt.rs:83-89)

  /** The masked sum keeps the low 23 bits of s + the rounding bit. */
  lemma RoundedLow(s: nat, b: nat)
    ensures And(WrappingAdd(U32Bound, s, b), 0x7f_ffff) == (s + b) % 0x80_0000
  {
    var p := Pow2(23);
    assert p == 0x80_0000 && U32Bound == p * 0x200 by {
      Pow2Small();
    }
    AndLowMask(WrappingAdd(U32Bound, s, b), 23);
    ModOfMod(s + b, p, 0x200);
  }

  /** The fields of a binary32 pattern written as sign, exponent and trailing parts. */
  lemma Fields32(y: nat, s: nat, e: nat, f: nat)
    requires s <= 1 && e < 0x100 && f < 0x80_0000
    requires y == s * 0x8000_0000 + e * 0x80_0000 + f
    ensures SignField(Binary32, y) == s
    ensures ExponentField(Binary32, y) == e
    ensures TrailingField(Binary32, y) == f
  {
    EncodeFields(Binary32, s, e, f);
  }

  /** `y` is the low 23 bits of the rounded root placed under `ey`. */
  lemma AssembleValue(s: nat, d1: nat, ey: nat)
    requires IsU32(ey) && ey % 0x80_0000 == 0
    ensures Assemble(s, d1, ey) == (s + Shr(d1, 31)) % 0x80_0000 + ey
  {
    var low := (s + Shr(d1, 31)) % 0x80_0000;
    RoundedLow(s, Shr(d1, 31));
    var p := Pow2(23);
    assert p == 0x80_0000 by {
      Pow2Small();
    }
    assert ey == ey / p * p;
    OrDisjoint(low, ey / p, 23);
  }

  /**
   * `y` has a clear sign bit, the exponent field ey / 2^23 and, as its
   * trailing field, the low 23 bits of the rounded root.
   */
  lemma AssembleFields(s: nat, d1: nat, ey: nat)
    requires IsU32(ey) && ey % 0x80_0000 == 0 && ey < 0x8000_0000
    ensures SignField(Binary32, Assemble(s, d1, ey)) == 0
    ensures ExponentField(Binary32, Assemble(s, d1, ey)) == ey / 0x80_0000
    ensures TrailingField(Binary32, Assemble(s, d1, ey)) == (s + Shr(d1, 31)) % 0x80_0000
  {
    AssembleValue(s, d1, ey);
    var e := ey / 0x80_0000;
    assert e < 0x100 && ey == e * 0x80_0000 by {
      QuotientBelow(ey, 0x80_0000, 0x100);
    }
    Fields32(Assemble(s, d1, ey), 0, e, (s + Shr(d1, 31)) % 0x80_0000);
  }

  /** A single bit: the top bits of d1 and d2 agree or not. */
  lemma TopBitXor(d1: nat, d2: nat)
    requires IsU32(d1) && IsU32(d2)
    ensures Shr(d1, 31) <= 1 && Shr(d2, 31) <= 1
    ensures Shr(Xor(d1, d2), 31) == if Shr(d1, 31) == Shr(d2, 31) then 0 else 1
  {
    Pow2Small();
    QuotientBelow(d1, 0x8000_0000, 2);
    QuotientBelow(d2, 0x8000_0000, 2);
    XorShr(d1, d2, 31);
    var b1, b2 := Shr(d1, 31), Shr(d2, 31);
    assert Xor(1, 1) == 0;
  }

  /** `tiny` as a sum: the exponent part plus the sign part. */
  lemma TinyValue(d1: nat, d2: nat)
    requires IsU32(d1) && IsU32(d2)
    ensures Tiny(d1, d2) ==
      (if d2 == 0 then 0 else 0x100_0000) + (if Shr(d1, 31) == Shr(d2, 31) then 0 else 0x8000_0000)
  {
    var c: nat := if Shr(d1, 31) == Shr(d2, 31) then 0 else 1;
    SignDifference(d1, d2, c);
    var t := if d2 == 0 then 0 else 0x100_0000;
    var p := Pow2(31);
    assert p == 0x8000_0000 by {
      Pow2Small();
    }
    OrDisjoint(t, c, 31);
  }

  /** `(d1 ^ d2) & 0x80000000` is the sign bit when the top bits of d1 and d2 differ. */
  lemma SignDifference(d1: nat, d2: nat, c: nat)
    requires IsU32(d1) && IsU32(d2)
    requires c == if Shr(d1, 31) == Shr(d2, 31) then 0 else 1
    ensures And(Xor(d1, d2), 0x8000_0000) == c * 0x8000_0000
  {
    var X := Xor(d1, d2);
    assert X / 0x8000_0000 == c by {
      TopBitXor(d1, d2);
      Pow2Small();
    }
    TopBitSet(X, c);
  }

  lemma TopBitSet(a: nat, c: nat)
    requires a / 0x8000_0000 == c && c <= 1
    ensures And(a, 0x8000_0000) == c * 0x8000_0000
  {
    assert Shr(a, 31) % 2 == c by {
      Pow2Small();
    }
    TopBitMask(a);
  }

  /** `& 0x80000000` keeps bit 31 in place. */
  lemma TopBitMask(a: nat)
    ensures And(a, 0x8000_0000) == Shr(a, 31) % 2 * 0x8000_0000
  {
    var p, q := Pow2(31), Pow2(1);
    assert p == 0x8000_0000 && q == 2 by {
      Pow2Small();
      Pow2Byte();
    }
    AndFieldMask(a, 1, 31);
  }

  /**
   * `tiny` is 0 or 2^-125 (exponent field 2, trailing field 0), with the
   * sign bit set when the top bits of d1 and d2 differ.
   */
  lemma TinyFields(d1: nat, d2: nat)
    requires IsU32(d1) && IsU32(d2)
    ensures SignField(Binary32, Tiny(d1, d2)) == if Shr(d1, 31) == Shr(d2, 31) then 0 else 1
    ensures ExponentField(Binary32, Tiny(d1, d2)) == if d2 == 0 then 0 else 2
    ensures TrailingField(Binary32, Tiny(d1, d2)) == 0
  {
    TinyValue(d1, d2);
    Fields32(Tiny(d1, d2), if Shr(d1, 31) == Shr(d2, 31) then 0 else 1, if d2 == 0 then 0 else 2, 0);
  }

  // ---------------------------------------------------------------------
  // The whole computation branch (src/sqrt.rs:49-89)

  /** The outcome on any represented pattern: its fields and the four possible corrections. */
  lemma ComputedFields(ix: nat, k: int, g: nat)
    requires Represents(ix, k, g)
    ensures Computed(ix).Unrounded?
    ensures SignField(Binary32, Computed(ix).y) == 0
    ensures ExponentField(Binary32, Computed(ix).y) == HalfExponent(ix) / 0x80_0000 == (k + 127) / 2
    ensures Computed(ix).tiny == 0 || Computed(ix).tiny == 0x100_0000 ||
            Computed(ix).tiny == 0x8000_0000 || Computed(ix).tiny == 0x8100_0000
  {
    var m := FixedPointMantissa(ix);
    var s := NewtonRoot(m, Seed(ix));
    var d1 := Residual(m, s);
    var ey := HalfExponent(ix);
    assert ey % 0x80_0000 == 0 && ey < 0x8000_0000 && ey / 0x80_0000 == (k + 127) / 2 by {
      HalfExponentValue(ix);
      HalfExponentOfRepresented(ix, k, g);
      DivModUnique(ey, 0x80_0000, (k + 127) / 2, 0);
    }
    AssembleFields(s, d1, ey);
    TinyValue(d1, NextResidual(s, d1));
  }

  /** The hypothesis on the float multiply of a subnormal: `product` is x * 2^23, normal and finite. */
  predicate ExactProduct(x: nat, product: nat)
  {
    0x80_0000 <= product < 0x7f80_0000 &&
    Decode(Binary32, product).Finite? && Decode(Binary32, x).Finite? &&
    Decode(Binary32, product).r == Decode(Binary32, x).r * 8388608.0
  }

  /** The exponent k of the operand pattern: E for a normal x, E' - 23 for a rescaled subnormal. */
  function OperandExponent(x: nat, product: nat): int
  {
    if IsSubnormal(Binary32, x) then ExponentField(Binary32, product) - 23 else ExponentField(Binary32, x)
  }

  /** The trailing field g of the operand pattern. */
  function OperandTrailing(x: nat, product: nat): nat
  {
    if IsSubnormal(Binary32, x) then TrailingField(Binary32, product) else TrailingField(Binary32, x)
  }

  /**
   * The operand pattern stands for x on both paths: a positive normal x
   * directly, a positive subnormal x through its exact rescaled product.
   */
  lemma OperandRepresents(x: nat, product: nat)
    requires IsU32(x) && IsU32(product) && Classify(x) == Compute
    requires IsSubnormal(Binary32, x) ==> ExactProduct(x, product)
    ensures -22 <= OperandExponent(x, product) <= 254
    ensures Represents(Operand(x, product), OperandExponent(x, product), OperandTrailing(x, product))
    ensures Decode(Binary32, x) == Finite(VirtualValue(OperandExponent(x, product), OperandTrailing(x, product)))
  {
    if IsSubnormal(Binary32, x) {
      RescaledOperand(x, product);
      MagnitudeCases(product);
    } else {
      NormalOperand(x, product);
    }
  }

  /**
   * The value split at the heart of the method: x = (m / 2^30) * 4^(ey - 127)
   * with the fixed-point mantissa m / 2^30 in [1, 4), so that sqrt(x) has the
   * biased exponent ey that `vapor_sqrt` writes into its result.
   */
  lemma OperandSplit(x: nat, product: nat)
    requires IsU32(x) && IsU32(product) && Classify(x) == Compute
    requires IsSubnormal(Binary32, x) ==> ExactProduct(x, product)
    ensures 0x4000_0000 <= FixedPointMantissa(Operand(x, product)) < U32Bound
    ensures Decode(Binary32, x) ==
      Finite(Scaled(FixedPointMantissa(Operand(x, product)), 2 * (HalfExponent(Operand(x, product)) / 0x80_0000) - 284))
  {
    OperandRepresents(x, product);
    RepresentedSplit(Decode(Binary32, x), Operand(x, product), OperandExponent(x, product), OperandTrailing(x, product));
  }

  lemma RepresentedSplit(v: Value, ix: nat, k: int, g: nat)
    requires Represents(ix, k, g) && v == Finite(VirtualValue(k, g))
    ensures 0x4000_0000 <= FixedPointMantissa(ix) < U32Bound
    ensures v == Finite(Scaled(FixedPointMantissa(ix), 2 * (HalfExponent(ix) / 0x80_0000) - 284))
  {
    ValueSplit(ix, k, g);
    var h := (k + 127) / 2;
    assert HalfExponent(ix) / 0x80_0000 == h by {
      HalfExponentOfRepresented(ix, k, g);
      DivModUnique(HalfExponent(ix), 0x80_0000, h, 0);
    }
  }

  /**
   * For every positive finite x, the unrounded result is a positive
   * pattern whose exponent field is that of sqrt(x) as split above
   * ((E + 127) / 2 for a normal x, at least 52 for any x), and the
   * correction term is one of 0, 2^-125, -0 and -2^-125.
   */
  lemma ResultFields(x: nat, product: nat)
    requires IsU32(x) && IsU32(product) && Classify(x) == Compute
    requires IsSubnormal(Binary32, x) ==> ExactProduct(x, product)
    ensures Computed(Operand(x, product)).Unrounded?
    ensures SignField(Binary32, Computed(Operand(x, product)).y) == 0
    ensures ExponentField(Binary32, Computed(Operand(x, product)).y) == HalfExponent(Operand(x, product)) / 0x80_0000
    ensures 52 <= ExponentField(Binary32, Computed(Operand(x, product)).y) <= 190
    ensures !IsSubnormal(Binary32, x) ==>
      ExponentField(Binary32, Computed(Operand(x, product)).y) == (ExponentField(Binary32, x) + 127) / 2
    ensures Computed(Operand(x, product)).tiny in {0, 0x100_0000, 0x8000_0000, 0x8100_0000}
  {
    OperandRepresents(x, product);
    var E := ExponentField(Binary32, x);
    assert !IsSubnormal(Binary32, x) ==> OperandExponent(x, product) == E;
    RepresentedFields(Operand(x, product), OperandExponent(x, product), OperandTrailing(x, product));
  }

  lemma RepresentedFields(ix: nat, k: int, g: nat)
    requires Represents(ix, k, g) && -22 <= k <= 254
    ensures Computed(ix).Unrounded?
    ensures SignField(Binary32, Computed(ix).y) == 0
    ensures ExponentField(Binary32, Computed(ix).y) == HalfExponent(ix) / 0x80_0000 == (k + 127) / 2
    ensures 52 <= (k + 127) / 2 <= 190
    ensures Computed(ix).tiny in {0, 0x100_0000, 0x8000_0000, 0x8100_0000}
  {
    ComputedFields(ix, k, g);
  }
}
