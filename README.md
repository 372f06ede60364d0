# libvapor bit-pattern kernels in Dafny

libvapor is a vectorised Rust library of IEEE 754 primitives that hardware
instruction sets lack. This project models the kernels that decide their
results with integer operations on the binary32 and binary64 encodings
(section 3.4 of IEEE 754-2008), one SIMD lane at a time. The lanes of the
source's vectors are independent, so a lane is an unsigned integer below
2^W, for W = 32 or 64.

- `bits.dfy` (module `Bits`): powers of two; `&`, `|` and `^` defined bit by bit
  on naturals; `!`, shifts and wrapping `+`, `-` and `*` modulo a lane bound.
  Also the facts about them that the kernels use.
- `ieee.dfy` (module `Ieee`): the two formats, the sign, exponent and trailing
  fields of a lane, and `Decode`. `Decode` maps a lane to an exact real, an
  infinity or NaN. The module also has `Equal` and `Less`, the float
  comparisons the source uses.
- `round.dfy` (module `Round`): the `Float` helper trait and one lane of
  `vapor_trunc`, `vapor_floor` and `vapor_ceil`. Each lane is a pure function
  over lanes, with the same branches as `src/round.rs` and one width parameter.
- `round_theorems.dfy` (module `RoundTheorems`): what the rounding kernels
  compute, stated at two levels:
  - the bit level, for each exponent band;
  - the value level, against roundToIntegralTowardZero, TowardNegative and
    TowardPositive (section 5.9 of IEEE 754-2008).

  The module also proves fixed points and idempotence.
- `sqrt.dfy` (module `Sqrt`): the integer machinery of `vapor_sqrt` (binary32
  only), which follows musl's `sqrtf`. It contains:
  - the seed table and `mul32`;
  - the classification of the input;
  - the operand pattern, the fixed-point mantissa `m` and the halved exponent `ey`;
  - the wrapping Newton steps, the residuals `d0`, `d1` and `d2`, the result
    bits and the `tiny` correction.

  `SqrtLane` is the body of the lane as a method, with the source's mutable
  locals.
- `sqrt_theorems.dfy` (module `SqrtTheorems`): how the stages fit together.
  - The operand pattern stands for x, including a subnormal x after the
    rescale by 2^23.
  - x splits as (m / 2^30) · 4^(ey − 127), with m / 2^30 in [1, 4).
  - The top bit of `d1` is the midpoint test of the rounding, and `d2 == 0`
    is the exactness test.
  - The result has sign 0 and exponent field `ey`.
  - `tiny` is one of ±0 and ±2^-125.

`src/lib.rs:4-5` declares only `mod round`, so `src/sqrt.rs` is not compiled
into the crate. Its integer logic is modelled all the same.

Notes on the code:

- The square root adjusts `s` only upward, by the top bit of `d1`
  (`src/sqrt.rs:83`). It never adjusts it by −1.
- The code has a binary32 square root only (`src/sqrt.rs:99-103`).
- The exported names are `vapor_*`.

## Model

| member | source | states |
|---|---|---|
| Round.MantissaDigits | src/round.rs:25-27 | the mantissa digit count is the trailing-field width: 23 for binary32, 52 for binary64 |
| Round.MantissaMask | src/round.rs:29-31 | the mask is 2^t − 1, one below the hidden bit |
| Round.Abs | src/round.rs:34 | `abs().to_bits()` is the lane with its sign bit cleared |
| Round.Exponent | src/round.rs:33-35 | `exponent` is the biased exponent field of the lane |
| Round.ExponentIgnoresSign | src/round.rs:33-35 | the exponent read from a lane does not depend on its sign bit |
| Round.RustConstants | src/round.rs:21-27 | MAX_EXP − 1 is the bias; MANTISSA_DIGITS is t + 1; `is_f32` holds exactly for binary32; the trunc shift b (9 or 12) is W − t |
| Round.MantissaMaskSelectsTrailing | src/round.rs:29-31 | the mantissa mask selects exactly the trailing significand field |
| Round.IsF32 | src/round.rs:21-23 | `is_f32` (the lane type is four bytes wide) holds exactly for binary32 |
| Round.Trunc | src/round.rs:52-70 | one lane of `vapor_trunc`; the result is again a lane of the format |
| Round.Floor | src/round.rs:72-94 | one lane of `vapor_floor`; the result is again a lane of the format |
| Round.Ceil | src/round.rs:96-118 | one lane of `vapor_ceil`; the result is again a lane of the format |
| RoundTheorems.RoundRealBounds | src/round.rs:52-118 | the reference rounding of a real is the nearest integer in the direction: floor ≤ v < floor + 1, ceil − 1 < v ≤ ceil, trunc between 0 and v |
| RoundTheorems.TruncHuge | src/round.rs:57-59 | when the biased exponent is at least bias + t (every infinity and NaN included), trunc returns its input bit for bit |
| RoundTheorems.TruncMiddle | src/round.rs:61-67 | for exponents in bias .. bias + t − 1, trunc clears exactly the low bias + t − e bits (`bits & !m`); sign and exponent stay |
| RoundTheorems.TruncSmall | src/round.rs:61-66 | below the bias (zeros, subnormals, \|x\| < 1) trunc returns the zero with the input's sign |
| RoundTheorems.MaskBits | src/round.rs:62-66 | `x & m` is the low k bits and `x & !m` rounds the lane down to a multiple of 2^k |
| RoundTheorems.OffsetBits | src/round.rs:83-84 | `(bits + offset) & !m` with fractional bits present truncates for offset 0 and moves up to the next multiple of m + 1 for offset m, without reaching the sign bit |
| RoundTheorems.FloorHuge | src/round.rs:76-77 | floor returns a lane whose exponent is at least bias + t unchanged |
| RoundTheorems.CeilHuge | src/round.rs:100-101 | ceil returns a lane whose exponent is at least bias + t unchanged |
| RoundTheorems.FloorMiddle | src/round.rs:78-85 | in the middle band floor keeps a lane without fractional bits, rounds a negative lane's bits up and a positive lane's bits down |
| RoundTheorems.CeilMiddle | src/round.rs:102-109 | in the middle band ceil keeps a lane without fractional bits, rounds a positive lane's bits up and a negative lane's bits down |
| RoundTheorems.FloorSmall | src/round.rs:86-92 | below 1 in magnitude floor gives +0 for a sign-positive lane, −1 for a negative nonzero lane and −0 for −0 |
| RoundTheorems.CeilSmall | src/round.rs:110-116 | below 1 in magnitude ceil gives −0 for a sign-negative lane, +1 for a positive nonzero lane and +0 for +0 |
| RoundTheorems.TruncCorrect | src/round.rs:52-70 | trunc decodes to roundToIntegralTowardZero of the input's value (infinities and NaN to themselves) and keeps the sign bit |
| RoundTheorems.FloorCorrect | src/round.rs:72-94 | floor decodes to roundToIntegralTowardNegative of the input's value and keeps the sign bit |
| RoundTheorems.CeilCorrect | src/round.rs:96-118 | ceil decodes to roundToIntegralTowardPositive of the input's value and keeps the sign bit |
| RoundTheorems.TruncFixpoint | src/round.rs:57-64 | trunc returns its input exactly when the input is infinite, NaN or an integer |
| RoundTheorems.FloorFixpoint | src/round.rs:76-82 | floor returns its input exactly when the input is infinite, NaN or an integer |
| RoundTheorems.CeilFixpoint | src/round.rs:100-106 | ceil returns its input exactly when the input is infinite, NaN or an integer |
| RoundTheorems.RoundedIsIntegral | src/round.rs:52-118 | a lane that decodes to a rounded value is infinite, NaN or an integer |
| RoundTheorems.TruncIdempotent | src/round.rs:52-70 | trunc(trunc(x)) == trunc(x) |
| RoundTheorems.FloorIdempotent | src/round.rs:72-94 | floor(floor(x)) == floor(x) |
| RoundTheorems.CeilIdempotent | src/round.rs:96-118 | ceil(ceil(x)) == ceil(x) |
| Sqrt.Mul32 | src/sqrt.rs:18-24 | `mul32(a, b)` is ⌊a·b / 2^32⌋, fits in u32, and r·2^32 ≤ a·b < (r + 1)·2^32 (error 0 ≤ e < 1) |
| Sqrt.SeedIndex | src/sqrt.rs:68 | the table index `(ix >> 17) % 128` is below 128 |
| Sqrt.TableLookup | src/sqrt.rs:4-16 | `gather_or` at an index below 128 never takes its default and yields an entry in 0x8000..0xffff |
| Sqrt.GatherOr | src/sqrt.rs:69 | `gather_or` yields the table entry at an index inside the table and the default at any other index (TableLookup shows the default is never taken) |
| Sqrt.Seed | src/sqrt.rs:69 | the seed `entry << 16` is entry · 2^16, fits in u32 and has its top bit set |
| Sqrt.Classify | src/sqrt.rs:44-48 | the computation branch is taken exactly for positive finite nonzero inputs; NaN comes out exactly for NaN, −∞ and negative nonzero finite inputs |
| Sqrt.Operand | src/sqrt.rs:49-54 | the operand pattern fits in u32; it is x for a normal x and the rescaled product less `23 << 23` for a subnormal x (OperandRepresents, NormalOperand and RescaledOperand give its meaning) |
| Sqrt.FixedPointMantissa | src/sqrt.rs:56-61 | `m` fits in u32 (its value is stated by SqrtTheorems.MantissaOfRepresented) |
| Sqrt.HalfExponent | src/sqrt.rs:63-65 | `ey` fits in u32 (its value is stated by SqrtTheorems.HalfExponentValue) |
| Sqrt.NewtonRoot | src/sqrt.rs:67-78 | after `(s - 1) >> 6` the root estimate is below 2^26 |
| Sqrt.Residual | src/sqrt.rs:80-81 | `d1` fits in u32 (its value s² + s − m·2^16 mod 2^32 is stated by SqrtTheorems.ResidualValues) |
| Sqrt.NextResidual | src/sqrt.rs:82 | `d2` fits in u32 (its value (s + 1)² − m·2^16 mod 2^32 is stated by SqrtTheorems.ResidualValues) |
| Sqrt.Assemble | src/sqrt.rs:83-86 | the assembled result fits in u32 (its fields are stated by SqrtTheorems.AssembleFields) |
| Sqrt.Tiny | src/sqrt.rs:88-89 | `tiny` fits in u32 (its value and fields are stated by SqrtTheorems.TinyValue and SqrtTheorems.TinyFields) |
| Sqrt.Computed | src/sqrt.rs:56-89 | the computation branch always yields the pair (y, tiny) of u32 patterns, never a special value; SqrtLane is proved equal to it, and ComputedFields and ResultFields state its fields |
| Sqrt.SqrtLane | src/sqrt.rs:39-91 | the method returns +∞ and ±0 unchanged, the model's quiet NaN `QuietNaN` (0x7fc00000) for NaN and negative inputs, and otherwise the staged result on the operand pattern |
| SqrtTheorems.ClassifyBits | src/sqrt.rs:44-48 | on bits: x is returned for 0, 0x80000000 and 0x7f800000; NaN for every pattern above 0x7f800000 except −0; the computation for 0 < x < 0x7f800000 |
| SqrtTheorems.SubnormalBits | src/sqrt.rs:50 | on the computation branch, `is_subnormal` holds exactly for patterns below 0x800000 |
| SqrtTheorems.QuietNaNValue | src/sqrt.rs:47 | the model's `f32::NAN`, 0x7fc00000, decodes to NaN, with sign 0 and the quiet bit set |
| SqrtTheorems.NormalOperand | src/sqrt.rs:50-54 | a positive normal x is the operand itself, with exponent 1..254, and stands for its own value |
| SqrtTheorems.RescaledOperand | src/sqrt.rs:49-54 | for a positive subnormal x whose product by 2^23 is normal, taking `23 << 23` off the product's bits, wrapping, leaves a pattern with exponent E' − 23 that stands for x |
| SqrtTheorems.OperandRepresents | src/sqrt.rs:49-54 | on both paths the operand pattern stands for x, with an exponent between −22 and 254 |
| SqrtTheorems.MantissaOfRepresented | src/sqrt.rs:56-61 | for an odd exponent m = 2^30 + (f << 7) with bit 31 clear; for an even one m = 2^31 + (f << 8) |
| SqrtTheorems.SeedIndexOfRepresented | src/sqrt.rs:68 | the table index is the exponent's parity times 64 plus the top 6 trailing bits, so entries 0-63 serve even exponents |
| SqrtTheorems.HalfExponentValue | src/sqrt.rs:63-65 | for every u32 pattern, `ey` is (((ix >> 23) + 127) / 2 mod 256) · 2^23, a multiple of 2^23 below 2^31 |
| SqrtTheorems.HalfExponentOfRepresented | src/sqrt.rs:63-65 | for an operand with exponent E (also E ≤ 0 after the rescale), `ey` is ⌊(E + 127) / 2⌋ << 23 |
| SqrtTheorems.ValueSplit | src/sqrt.rs:56-65 | the operand's value is m · 2^(2·⌊(E + 127)/2⌋ − 284), with 2^30 ≤ m < 2^32 |
| SqrtTheorems.OperandSplit | src/sqrt.rs:49-65 | every positive finite x is (m / 2^30) · 4^(ey − 127) with m / 2^30 in [1, 4), so sqrt(x) has the biased exponent that `ey` holds |
| SqrtTheorems.ResidualValues | src/sqrt.rs:80-82 | with M = m · 2^16, `d1` is s² + s − M and `d2` is (s + 1)² − M, both modulo 2^32 |
| SqrtTheorems.RoundingBit | src/sqrt.rs:80-83 | when s² + s − M fits in an i32, the bit `d1 >> 31` that rounds s up is 1 exactly when (2s + 1)² < 4M, i.e. the midpoint lies below sqrt(M) |
| SqrtTheorems.ExactnessTest | src/sqrt.rs:82-88 | when (s + 1)² − M fits in 32 bits, `d2 == 0` exactly when s + 1 is the exact root of M |
| SqrtTheorems.AssembleValue | src/sqrt.rs:83-85 | `y` is the low 23 bits of s + (d1 >> 31), plus `ey` |
| SqrtTheorems.AssembleFields | src/sqrt.rs:83-86 | `y` has sign 0, exponent field ey / 2^23 and trailing field (s + (d1 >> 31)) mod 2^23 |
| SqrtTheorems.TinyValue | src/sqrt.rs:88-89 | `tiny` is 0x01000000 when d2 ≠ 0, plus 0x80000000 when the top bits of d1 and d2 differ |
| SqrtTheorems.TinyFields | src/sqrt.rs:88-89 | `tiny` has exponent field 0 or 2, trailing field 0, and its sign bit set exactly when the top bits of d1 and d2 differ |
| SqrtTheorems.ComputedFields | src/sqrt.rs:56-89 | on any operand pattern the result has sign 0 and exponent ⌊(E + 127)/2⌋, and `tiny` is one of 0, 0x01000000, 0x80000000, 0x81000000 |
| SqrtTheorems.ResultFields | src/sqrt.rs:49-89 | for every positive finite x the result has sign 0 and exponent field `ey`, between 52 and 190 and equal to ⌊(E + 127)/2⌋ for a normal x, and `tiny` is one of ±0 and ±2^-125 |

## Left out

- `vapor_round` (`src/round.rs:120-142`) is not modelled: its deciding branch
  is the float add/subtract of a magic number under the hardware rounding
  mode, and its small branch is the float multiply `0.0 * x`.
- `vapor_fract` (`src/round.rs:48-50`) is not modelled: it is the float
  subtraction `x - trunc(x)`.
- Sqrt.Operand: the subnormal rescale `x * 2^23` (`src/sqrt.rs:49-51`) is a
  float multiply. Its result bits are a parameter, `product`, of `Operand`
  and `SqrtLane`. `RescaledOperand` and the lemmas built on it assume it is
  exact and normal (`ExactProduct`), which holds for the IEEE 754 multiply.
- Sqrt.QuietNaN: `f32::NAN` is fixed at 0x7fc00000, the pattern current rustc
  produces. Rust guarantees only a quiet NaN; its sign and payload may differ
  across versions and targets. `SqrtLane`'s NaN clause relies on this pattern.
- The final float addition `y + from_bits(tiny)` (`src/sqrt.rs:90`) is not
  modelled. So the claim that the result is correctly rounded is not stated.
  `SqrtLane` returns `y` and `tiny` as they stand.
- SqrtTheorems.RoundingBit and SqrtTheorems.ExactnessTest take the size of
  the residuals as hypotheses. The accuracy of the table seed and of the
  two Newton steps, which bounds them, is not proved.
- Sqrt.NewtonRoot: its contract states the range of the shifted estimate
  only. That the estimate approximates sqrt(m · 2^16) is not stated, for the
  same reason.
- `src/fma.rs` is not part of this model: it rests on f64 multiply, add and
  narrowing.
- The commented-out `mul64` (`src/sqrt.rs:26-35`) is not compiled and is not
  modelled.
- `src/lib.rs` (module wiring, `no_std`, the panic handler) and
  `tests/sanity.rs` (the property-test harness) are not part of this model.
- SIMD lane replication, the `vectorize!` and `paste!` macros and the
  `#[no_mangle]` exports are not modelled. One scalar lane stands for every
  lane count.
