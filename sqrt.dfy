/**
 * The integer machinery of the single-precision square root in libvapor
 * (src/sqrt.rs), which follows musl's sqrtf: one lane of u32 arithmetic
 * wrapping modulo 2^32. The operand's significand becomes a fixed-point
 * fraction m, a 128-entry table seeds an approximation of 1/sqrt(m), two
 * Newton steps refine sqrt(m), and the result is assembled from the halved
 * exponent and a rounded significand, together with a tiny correction term
 * that tells the final floating-point addition which way to round.
 */
module Sqrt {
  import opened Bits
  import opened Ieee

  // ---------------------------------------------------------------------
  // u32 lanes

  /** 2^32: u32 arithmetic wraps modulo this. */
  const U32Bound: nat := 0x1_0000_0000

  /** 2^64: the u64 product in `mul32` is taken modulo this. */
  const U64Bound: nat := 0x1_0000_0000_0000_0000

  predicate IsU32(a: nat)
  {
    a < U32Bound
  }

  // ---------------------------------------------------------------------
  // The seed table (src/sqrt.rs:4-16)

  /**
   * `RSQRT_TAB`: the 16 leading bits of 1/sqrt of the fixed-point
   * significand, by index. Entries 0-63 serve significands in [1/2, 1),
   * entries 64-127 those in [1/4, 1/2), reading m as a 0.32 fixed-point
   * number; that is, m / 2^30 in [2, 4) and [1, 2) in the 2.30 reading of
   * FixedPointMantissa. The table is written in quarters.
   */
  const RsqrtTable: seq<nat> := TableQuarter0 + TableQuarter1 + TableQuarter2 + TableQuarter3

  const TableQuarter0: seq<nat> := [
    0xb451, 0xb2f0, 0xb196, 0xb044, 0xaef9, 0xadb6, 0xac79, 0xab43,
    0xaa14, 0xa8eb, 0xa7c8, 0xa6aa, 0xa592, 0xa480, 0xa373, 0xa26b,
    0xa168, 0xa06a, 0x9f70, 0x9e7b, 0x9d8a, 0x9c9d, 0x9bb5, 0x9ad1,
    0x99f0, 0x9913, 0x983a, 0x9765, 0x9693, 0x95c4, 0x94f8, 0x9430
  ]

  const TableQuarter1: seq<nat> := [
    0x936b, 0x92a9, 0x91ea, 0x912e, 0x9075, 0x8fbe, 0x8f0a, 0x8e59,
    0x8daa, 0x8cfe, 0x8c54, 0x8bac, 0x8b07, 0x8a64, 0x89c4, 0x8925,
    0x8889, 0x87ee, 0x8756, 0x86c0, 0x862b, 0x8599, 0x8508, 0x8479,
    0x83ec, 0x8361, 0x82d8, 0x8250, 0x81c9, 0x8145, 0x80c2, 0x8040
  ]

  const TableQuarter2: seq<nat> := [
    0xff02, 0xfd0e, 0xfb25, 0xf947, 0xf773, 0xf5aa, 0xf3ea, 0xf234,
    0xf087, 0xeee3, 0xed47, 0xebb3, 0xea27, 0xe8a3, 0xe727, 0xe5b2,
    0xe443, 0xe2dc, 0xe17a, 0xe020, 0xdecb, 0xdd7d, 0xdc34, 0xdaf1,
    0xd9b3, 0xd87b, 0xd748, 0xd61a, 0xd4f1, 0xd3cd, 0xd2ad, 0xd192
  ]

  const TableQuarter3: seq<nat> := [
    0xd07b, 0xcf69, 0xce5b, 0xcd51, 0xcc4a, 0xcb48, 0xca4a, 0xc94f,
    0xc858, 0xc764, 0xc674, 0xc587, 0xc49d, 0xc3b7, 0xc2d4, 0xc1f4,
    0xc116, 0xc03c, 0xbf65, 0xbe90, 0xbdbe, 0xbcef, 0xbc23, 0xbb59,
    0xba91, 0xb9cc, 0xb90a, 0xb84a, 0xb78c, 0xb6d0, 0xb617, 0xb560
  ]

  /** Every entry has its top bit set and fits in 16 bits. */
  lemma TableEntries()
    ensures |RsqrtTable| == 128
    ensures forall i :: 0 <= i < |RsqrtTable| ==> 0x8000 <= RsqrtTable[i] <= 0xffff
  {
    forall i | 0 <= i < |RsqrtTable|
      ensures 0x8000 <= RsqrtTable[i] <= 0xffff
    {
      TableEntry(i);
    }
  }

  lemma TableEntry(i: nat)
    requires i < 128
    ensures |RsqrtTable| == 128
    ensures 0x8000 <= RsqrtTable[i] <= 0xffff
  {
    QuarterLengths();
    if i < 32 {
      EntryInQuarter0(i);
    } else if i < 64 {
      EntryInQuarter1(i);
    } else if i < 96 {
      EntryInQuarter2(i);
    } else {
      EntryInQuarter3(i);
    }
  }

  lemma EntryInQuarter0(i: nat)
    requires i < 32
    ensures 0x8000 <= RsqrtTable[i] <= 0xffff
  {
    assert 0x8000 <= TableQuarter0[i] <= 0xffff by {
      Quarter0Entries(i);
    }
    assert RsqrtTable[i] == TableQuarter0[i] by {
      QuarterLengths();
      IndexFront(RsqrtTable, TableQuarter0 + TableQuarter1 + TableQuarter2, TableQuarter3, i);
      IndexFront(TableQuarter0 + TableQuarter1 + TableQuarter2, TableQuarter0 + TableQuarter1, TableQuarter2, i);
      IndexFront(TableQuarter0 + TableQuarter1, TableQuarter0, TableQuarter1, i);
    }
  }

  lemma EntryInQuarter1(i: nat)
    requires 32 <= i < 64
    ensures 0x8000 <= RsqrtTable[i] <= 0xffff
  {
    assert 0x8000 <= TableQuarter1[i - 32] <= 0xffff by {
      Quarter1Entries(i - 32);
    }
    assert RsqrtTable[i] == TableQuarter1[i - 32] by {
      QuarterLengths();
      IndexFront(RsqrtTable, TableQuarter0 + TableQuarter1 + TableQuarter2, TableQuarter3, i);
      IndexFront(TableQuarter0 + TableQuarter1 + TableQuarter2, TableQuarter0 + TableQuarter1, TableQuarter2, i);
      IndexBack(TableQuarter0 + TableQuarter1, TableQuarter0, TableQuarter1, i);
    }
  }

  lemma EntryInQuarter2(i: nat)
    requires 64 <= i < 96
    ensures 0x8000 <= RsqrtTable[i] <= 0xffff
  {
    assert 0x8000 <= TableQuarter2[i - 64] <= 0xffff by {
      Quarter2Entries(i - 64);
    }
    assert RsqrtTable[i] == TableQuarter2[i - 64] by {
      QuarterLengths();
      IndexFront(RsqrtTable, TableQuarter0 + TableQuarter1 + TableQuarter2, TableQuarter3, i);
      IndexBack(TableQuarter0 + TableQuarter1 + TableQuarter2, TableQuarter0 + TableQuarter1, TableQuarter2, i);
    }
  }

  lemma EntryInQuarter3(i: nat)
    requires 96 <= i < 128
    ensures 0x8000 <= RsqrtTable[i] <= 0xffff
  {
    assert 0x8000 <= TableQuarter3[i - 96] <= 0xffff by {
      Quarter3Entries(i - 96);
    }
    assert RsqrtTable[i] == TableQuarter3[i - 96] by {
      QuarterLengths();
      IndexBack(RsqrtTable, TableQuarter0 + TableQuarter1 + TableQuarter2, TableQuarter3, i);
    }
  }

  lemma QuarterLengths()
    ensures |TableQuarter0| == |TableQuarter1| == |TableQuarter2| == |TableQuarter3| == 32
    ensures |RsqrtTable| == 128
  {
  }

  lemma IndexFront(t: seq<nat>, a: seq<nat>, b: seq<nat>, i: nat)
    requires t == a + b && i < |a|
    ensures i < |t| && t[i] == a[i]
  {
  }

  lemma IndexBack(t: seq<nat>, a: seq<nat>, b: seq<nat>, i: nat)
    requires t == a + b && |a| <= i < |t|
    ensures t[i] == b[i - |a|]
  {
  }

  lemma Quarter0Entries(j: nat)
    requires j < 32
    ensures |TableQuarter0| == 32 && 0x8000 <= TableQuarter0[j] <= 0xffff
  {
  }

  lemma Quarter1Entries(j: nat)
    requires j < 32
    ensures |TableQuarter1| == 32 && 0x8000 <= TableQuarter1[j] <= 0xffff
  {
  }

  lemma Quarter2Entries(j: nat)
    requires j < 32
    ensures |TableQuarter2| == 32 && 0x8000 <= TableQuarter2[j] <= 0xffff
  {
  }

  lemma Quarter3Entries(j: nat)
    requires j < 32
    ensures |TableQuarter3| == 32 && 0x8000 <= TableQuarter3[j] <= 0xffff
  {
  }

  // ---------------------------------------------------------------------
  // mul32 (src/sqrt.rs:18-24)

  /** `mul32`: `((a as u64 * b as u64) >> 32) as u32`, the high half of the product. */
  function Mul32(a: nat, b: nat): (r: nat)
    requires IsU32(a) && IsU32(b)
    ensures IsU32(r)
    ensures r == a * b / U32Bound
    ensures r * U32Bound <= a * b < (r + 1) * U32Bound
  {
    Mul32Wide(a, b);
    Shr(WrappingMul(U64Bound, a, b), 32) % U32Bound
  }

  /** The u64 product never wraps, and its high half fits in a u32. */
  lemma Mul32Wide(a: nat, b: nat)
    requires IsU32(a) && IsU32(b)
    ensures WrappingMul(U64Bound, a, b) == a * b
    ensures Shr(a * b, 32) == a * b / U32Bound < U32Bound
  {
    assert a * b < U64Bound by {
      MulMonotone(a, U32Bound - 1, b);
      MulMonotone(b, U32Bound - 1, U32Bound - 1);
    }
    Pow2Small();
    QuotientBelow(a * b, U32Bound, U32Bound);
  }

  // ---------------------------------------------------------------------
  // The table lookup (src/sqrt.rs:68-69)

  /** `gather_or(table, i, default)`: the entry at i, or the default past the end. */
  function GatherOr(table: seq<nat>, i: nat, default: nat): (r: nat)
    ensures i < |table| ==> r == table[i]
    ensures |table| <= i ==> r == default
  {
    if i < |table| then table[i] else default
  }

  /** `(x.to_bits() >> 17) % 128`: the exponent's last bit and the six leading trailing bits. */
  function SeedIndex(ix: nat): (i: nat)
    ensures i < 128
  {
    Shr(ix, 17) % 128
  }

  /** The table entry the lookup reads: `gather_or` never falls back to its default here. */
  function TableLookup(i: nat): (t: nat)
    requires i < 128
    ensures t == GatherOr(RsqrtTable, i, 0) == RsqrtTable[i]
    ensures 0x8000 <= t <= 0xffff
  {
    TableEntry(i);
    GatherOr(RsqrtTable, i, 0)
  }

  /** `gather_or(&RSQRT_TAB, i, 0) << 16`: the entry as a 0.32 fixed-point number. */
  function Seed(ix: nat): (r: nat)
    ensures IsU32(r)
    ensures r == TableLookup(SeedIndex(ix)) * 0x1_0000
    ensures 0x8000_0000 <= r
  {
    var t := TableLookup(SeedIndex(ix));
    EntryShifted(t);
    Shl(U32Bound, t, 16)
  }

  lemma EntryShifted(t: nat)
    requires 0x8000 <= t <= 0xffff
    ensures Shl(U32Bound, t, 16) == t * 0x1_0000
    ensures 0x8000_0000 <= t * 0x1_0000 < U32Bound
  {
    Pow2Small();
    DivModUnique(t * 0x1_0000, U32Bound, 0, t * 0x1_0000);
  }

  // ---------------------------------------------------------------------
  // Classification (src/sqrt.rs:44-47)

  /** The three branches of `vapor_sqrt`. */
  datatype Path = ReturnInput | ReturnNaN | Compute

  /** `x == INFINITY || x == 0.0`, then `x.is_nan() || x < 0.0`, else the computation. */
  function Classify(x: nat): (p: Path)
    ensures p == Compute <==> Decode(Binary32, x).Finite? && Decode(Binary32, x).r > 0.0
    ensures p == ReturnNaN <==>
      Decode(Binary32, x) == NaN || Decode(Binary32, x) == Infinite(true) ||
      (Decode(Binary32, x).Finite? && Decode(Binary32, x).r < 0.0)
  {
    var v := Decode(Binary32, x);
    if Equal(v, Infinite(false)) || Equal(v, Finite(0.0)) then
      ReturnInput
    else if IsNaN(Binary32, x) || Less(v, Finite(0.0)) then
      ReturnNaN
    else
      Compute
  }

  /** `f32::NAN` as rustc produces it: the quiet NaN with a clear sign bit (Rust promises only a quiet NaN). */
  const QuietNaN: nat := 0x7fc0_0000

  // ---------------------------------------------------------------------
  // The operand (src/sqrt.rs:49-54)

  /**
   * The pattern the computation works on. A subnormal operand is first
   * multiplied by 2^23 in floating point; `product` stands for the bits of
   * that product. 23 is then taken off its exponent field, wrapping.
   */
  function Operand(x: nat, product: nat): (ix: nat)
    requires IsU32(x) && IsU32(product)
    ensures IsU32(ix)
  {
    if IsSubnormal(Binary32, x) then WrappingSub(U32Bound, product, Shl(U32Bound, 23, 23)) else x
  }

  // ---------------------------------------------------------------------
  // The fixed-point significand and the halved exponent (src/sqrt.rs:56-65)

  /**
   * `m`: the significand with its hidden bit as a 2.30 fixed-point number,
   * shifted one place further when the exponent is even (`even` is the
   * source's name for bit 23 being set, that is, an odd biased exponent).
   */
  function FixedPointMantissa(ix: nat): (m: nat)
    requires IsU32(ix)
    ensures IsU32(m)
  {
    if And(ix, 0x80_0000) != 0 then
      AndBounded(Shl(U32Bound, ix, 7), 0x7fff_ffff);
      And(Shl(U32Bound, ix, 7), 0x7fff_ffff)
    else
      Pow2Small();
      OrBounded(Shl(U32Bound, ix, 8), 0x8000_0000, 32);
      Or(Shl(U32Bound, ix, 8), 0x8000_0000)
  }

  /** `ey`: `((ix >> 1) + (0x3f800000 >> 1)) & 0x7f800000`, the result's exponent field in place. */
  function HalfExponent(ix: nat): (ey: nat)
    requires IsU32(ix)
    ensures IsU32(ey)
  {
    var half := WrappingAdd(U32Bound, Shr(ix, 1), Shr(0x3f80_0000, 1));
    AndBounded(half, 0x7f80_0000);
    And(half, 0x7f80_0000)
  }

  // ---------------------------------------------------------------------
  // The Newton iteration (src/sqrt.rs:66-78)

  /** `three`: 3.0 as a 2.30 fixed-point number. */
  const Three: nat := 0xc000_0000

  /**
   * Two Newton steps from the seed r towards 1/sqrt(m) and s = m*r towards
   * sqrt(m), then the 26-bit root `(s - 1) >> 6`.
   */
  function NewtonRoot(m: nat, r0: nat): (s: nat)
    requires IsU32(m) && IsU32(r0)
    ensures s < 0x400_0000
  {
    var s0 := Mul32(m, r0);
    var u0 := WrappingSub(U32Bound, Three, Mul32(s0, r0));
    var r1 := Shl(U32Bound, Mul32(r0, u0), 1);
    var s1 := Shl(U32Bound, Mul32(s0, u0), 1);
    var u1 := WrappingSub(U32Bound, Three, Mul32(s1, r1));
    var s2 := Mul32(s1, u1);
    RootShifted(WrappingSub(U32Bound, s2, 1));
    Shr(WrappingSub(U32Bound, s2, 1), 6)
  }

  lemma RootShifted(a: nat)
    requires IsU32(a)
    ensures Shr(a, 6) < 0x400_0000
  {
    Pow2Small();
    assert Pow2(6) == 64 by {
      Pow2Byte();
      Pow2Add(4, 2);
    }
    QuotientBelow(a, 64, 0x400_0000);
  }

  // ---------------------------------------------------------------------
  // The rounding decision and the result (src/sqrt.rs:80-90)

  /** `d1 = s - ((m << 16) - s * s)`, wrapping. */
  function Residual(m: nat, s: nat): (d1: nat)
    requires IsU32(m) && IsU32(s)
    ensures IsU32(d1)
  {
    WrappingSub(U32Bound, s, WrappingSub(U32Bound, Shl(U32Bound, m, 16), WrappingMul(U32Bound, s, s)))
  }

  /** `d2 = d1 + s + 1`, wrapping. */
  function NextResidual(s: nat, d1: nat): (d2: nat)
    ensures IsU32(d2)
  {
    WrappingAdd(U32Bound, WrappingAdd(U32Bound, d1, s), 1)
  }

  /** `y`: the root rounded by the top bit of d1, masked to 23 bits, under the exponent `ey`. */
  function Assemble(s: nat, d1: nat, ey: nat): (y: nat)
    requires IsU32(ey)
    ensures IsU32(y)
  {
    var rounded := WrappingAdd(U32Bound, s, Shr(d1, 31));
    AndBounded(rounded, 0x7f_ffff);
    Pow2Small();
    OrBounded(And(rounded, 0x7f_ffff), ey, 32);
    Or(And(rounded, 0x7f_ffff), ey)
  }

  /**
   * `tiny`: 2^-125 unless (s+1)^2 hits m*2^16 exactly, negated when the
   * top bits of d1 and d2 differ.
   */
  function Tiny(d1: nat, d2: nat): (t: nat)
    ensures IsU32(t)
  {
    AndBounded(Xor(d1, d2), 0x8000_0000);
    Pow2Small();
    OrBounded(if d2 == 0 then 0 else 0x0100_0000, And(Xor(d1, d2), 0x8000_0000), 32);
    Or(if d2 == 0 then 0 else 0x0100_0000, And(Xor(d1, d2), 0x8000_0000))
  }

  // ---------------------------------------------------------------------
  // One lane of `vapor_sqrt` (src/sqrt.rs:39-93)

  /**
   * What a lane yields: an input returned as it is (or the NaN), or the
   * pair (y, tiny) whose floating-point sum `y + tiny` is the result.
   */
  datatype SqrtOutcome = Special(bits: nat) | Unrounded(y: nat, tiny: nat)

  /** The computation branch on the operand pattern ix, stage by stage. */
  function Computed(ix: nat): (r: SqrtOutcome)
    requires IsU32(ix)
    ensures r.Unrounded? && IsU32(r.y) && IsU32(r.tiny)
  {
    var m := FixedPointMantissa(ix);
    var s := NewtonRoot(m, Seed(ix));
    var d1 := Residual(m, s);
    Unrounded(Assemble(s, d1, HalfExponent(ix)), Tiny(d1, NextResidual(s, d1)))
  }

  /** The body of `vapor_sqrt` for one f32 lane, with its mutable locals. */
  method SqrtLane(x: nat, product: nat) returns (out: SqrtOutcome)
    requires IsU32(x) && IsU32(product)
    ensures Classify(x) == ReturnInput ==> out == Special(x)
    ensures Classify(x) == ReturnNaN ==> out == Special(QuietNaN)
    ensures Classify(x) == Compute ==> out == Computed(Operand(x, product))
  {
    var v := Decode(Binary32, x);
    if Equal(v, Infinite(false)) || Equal(v, Finite(0.0)) {
      return Special(x);
    } else if IsNaN(Binary32, x) || Less(v, Finite(0.0)) {
      return Special(QuietNaN);
    }
    var ix := Operand(x, product);
    var m := FixedPointMantissa(ix);

    var ey := Shr(ix, 1);
    ey := WrappingAdd(U32Bound, ey, Shr(0x3f80_0000, 1));
    AndBounded(ey, 0x7f80_0000);
    ey := And(ey, 0x7f80_0000);

    var i := SeedIndex(ix);
    var r := Shl(U32Bound, TableLookup(i), 16);
    var s := Mul32(m, r);
    var d := Mul32(s, r);
    var u := WrappingSub(U32Bound, Three, d);
    r := Shl(U32Bound, Mul32(r, u), 1);
    s := Shl(U32Bound, Mul32(s, u), 1);
    d := Mul32(s, r);
    u := WrappingSub(U32Bound, Three, d);
    s := Mul32(s, u);
    s := Shr(WrappingSub(U32Bound, s, 1), 6);

    var d0 := WrappingSub(U32Bound, Shl(U32Bound, m, 16), WrappingMul(U32Bound, s, s));
    var d1 := WrappingSub(U32Bound, s, d0);
    var d2 := WrappingAdd(U32Bound, WrappingAdd(U32Bound, d1, s), 1);
    s := WrappingAdd(U32Bound, s, Shr(d1, 31));
    AndBounded(s, 0x7f_ffff);
    s := And(s, 0x7f_ffff);
    Pow2Small();
    OrBounded(s, ey, 32);
    s := Or(s, ey);
    var y := s;

    var tiny := if d2 == 0 then 0 else 0x0100_0000;
    tiny := Or(tiny, And(Xor(d1, d2), 0x8000_0000));
    return Unrounded(y, tiny);
  }
}
