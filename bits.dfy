/**
 * Unsigned machine integers as natural numbers.
 *
 * A lane of width W is a nat below 2^W. The bitwise operators of the
 * source (`&`, `|`, `^`, `!`, `<<`, `>>`) and its wrapping arithmetic are
 * defined here on nats, together with the facts about masks that the
 * kernels rely on: a mask of low ones keeps the remainder, a mask of high
 * ones rounds down to a multiple, a field mask extracts a field, and `|`
 * of two values with disjoint bits is their sum.
 */
module Bits {

  /** 2^k */
  function Pow2(k: nat): (r: nat)
    ensures r >= 1
  {
    if k == 0 then 1 else 2 * Pow2(k - 1)
  }

  lemma {:induction false} Pow2Add(a: nat, b: nat)
    ensures Pow2(a + b) == Pow2(a) * Pow2(b)
    decreases a
  {
    if a > 0 {
      Pow2Add(a - 1, b);
      assert Pow2(a + b) == 2 * Pow2(a - 1 + b);
    }
  }

  /** The powers of two that name the widths of binary32 and binary64 and their fields. */
  lemma Pow2Values()
    ensures Pow2(7) == 0x80 && Pow2(8) == 0x100 && Pow2(11) == 0x800 && Pow2(16) == 0x1_0000
    ensures Pow2(17) == 0x2_0000 && Pow2(23) == 0x80_0000 && Pow2(24) == 0x100_0000
    ensures Pow2(31) == 0x8000_0000 && Pow2(32) == 0x1_0000_0000
    ensures Pow2(52) == 0x10_0000_0000_0000 && Pow2(63) == 0x8000_0000_0000_0000
    ensures Pow2(64) == 0x1_0000_0000_0000_0000
  {
    Pow2Small();
    Pow2Add(32, 20);
    Pow2Add(32, 31);
    Pow2Add(32, 32);
  }

  lemma Pow2Small()
    ensures Pow2(7) == 0x80 && Pow2(8) == 0x100 && Pow2(11) == 0x800 && Pow2(16) == 0x1_0000
    ensures Pow2(17) == 0x2_0000 && Pow2(20) == 0x10_0000 && Pow2(23) == 0x80_0000 && Pow2(24) == 0x100_0000
    ensures Pow2(31) == 0x8000_0000 && Pow2(32) == 0x1_0000_0000
  {
    Pow2Byte();
    Pow2Add(8, 3);
    Pow2Add(8, 8);
    Pow2Add(16, 1);
    Pow2Add(16, 4);
    Pow2Add(16, 7);
    Pow2Add(16, 8);
    Pow2Add(24, 7);
    Pow2Add(16, 16);
  }

  lemma Pow2Byte()
    ensures Pow2(1) == 2 && Pow2(3) == 8 && Pow2(4) == 16 && Pow2(7) == 0x80 && Pow2(8) == 0x100
  {
    assert Pow2(2) == 4;
    Pow2Add(2, 2);
    Pow2Add(4, 3);
    Pow2Add(4, 4);
  }

  lemma Pow2Monotone(a: nat, b: nat)
    requires a <= b
    ensures Pow2(a) <= Pow2(b)
  {
    Pow2Add(a, b - a);
    MulMonotone(1, Pow2(b - a), Pow2(a));
  }

  lemma Pow2Divides(a: nat, b: nat)
    requires a <= b
    ensures Pow2(b) == Pow2(b - a) * Pow2(a)
    ensures Pow2(b) / Pow2(a) == Pow2(b - a) && Pow2(b) % Pow2(a) == 0
  {
    Pow2Add(b - a, a);
    DivModUnique(Pow2(b), Pow2(a), Pow2(b - a), 0);
  }

  // ---------------------------------------------------------------------
  // Division and remainder by positive numbers

  lemma MulMonotone(x: int, y: int, z: int)
    requires x <= y && z >= 0
    ensures x * z <= y * z
  {
  }

  lemma DivModUnique(a: int, d: int, q: int, r: int)
    requires d > 0 && 0 <= r < d && a == q * d + r
    ensures a / d == q && a % d == r
  {
    var q', r' := a / d, a % d;
    assert a == q' * d + r';
    if q' < q {
      MulMonotone(q' + 1, q, d);
      assert false;
    } else if q' > q {
      MulMonotone(q + 1, q', d);
      assert false;
    }
  }

  /** The mixed-radix view of a number: dividing by b and then by c. */
  lemma DivDiv(a: nat, b: nat, c: nat)
    requires b > 0 && c > 0
    ensures b * c > 0
    ensures a / b / c == a / (b * c)
    ensures a % (b * c) == (a / b) % c * b + a % b
  {
    var q1, r1 := a / b, a % b;
    var q2, r2 := q1 / c, q1 % c;
    assert a == q2 * (b * c) + (r2 * b + r1) by {
      assert a == q1 * b + r1;
      assert q1 == q2 * c + r2;
    }
    MulMonotone(r2, c - 1, b);
    DivModUnique(a, b * c, q2, r2 * b + r1);
  }

  lemma MulTwice(q: int, p: int)
    ensures 2 * (q * p) == q * (2 * p)
  {
  }

  lemma MulPred(q: int, p: int)
    ensures (q - 1) * p == q * p - p
  {
  }

  lemma MulDivMod(c: nat, f: nat, p: nat)
    requires p > 0
    ensures (c * p + f) / p == c + f / p
    ensures (c * p + f) % p == f % p
  {
    DivModUnique(c * p + f, p, c + f / p, f % p);
  }

  /** Halving first: the step all the bit-recursive proofs take. */
  lemma DivMod2(a: nat, k: nat)
    requires k >= 1
    ensures a / Pow2(k) == a / 2 / Pow2(k - 1)
    ensures a % Pow2(k) == 2 * (a / 2 % Pow2(k - 1)) + a % 2
  {
    DivDiv(a, 2, Pow2(k - 1));
  }

  /** Reducing modulo b*c and then modulo b is reducing modulo b. */
  lemma ModOfMod(a: int, b: nat, c: nat)
    requires b > 0 && c > 0
    ensures b * c > 0
    ensures a % (b * c) % b == a % b
  {
    var r := a % (b * c);
    assert a == (a / (b * c) * c + r / b) * b + r % b;
    DivModUnique(a, b, a / (b * c) * c + r / b, r % b);
  }

  /** Scaling both the value and the modulus by c scales the remainder. */
  lemma ModScaled(a: int, c: nat, n: nat)
    requires c > 0 && n > 0
    ensures n * c > 0
    ensures (a * c) % (n * c) == (a % n) * c
  {
    assert a * c == (a / n) * (n * c) + (a % n) * c;
    MulMonotone(a % n, n - 1, c);
    DivModUnique(a * c, n * c, a / n, (a % n) * c);
  }

  /** Adding a multiple of n does not change the remainder. */
  lemma ModShift(a: int, t: int, n: nat)
    requires n > 0
    ensures (a + t * n) % n == a % n
  {
    DivModUnique(a + t * n, n, a / n + t, a % n);
  }

  /** Reducing an operand of `+` or `-` first does not change the remainder. */
  lemma ModReduce(a: int, b: int, n: nat)
    requires n > 0
    ensures (a - b % n) % n == (a - b) % n
    ensures (a % n - b) % n == (a - b) % n
    ensures (a % n + b) % n == (a + b) % n
  {
    ModReduceRight(a, b, n);
    ModReduceLeft(a, -b, n);
    ModReduceLeft(a, b, n);
  }

  lemma ModReduceRight(a: int, b: int, n: nat)
    requires n > 0
    ensures (a - b % n) % n == (a - b) % n
  {
    var q := b / n;
    assert a - b % n == (a - b) + q * n;
    ModShift(a - b, q, n);
  }

  lemma ModReduceLeft(a: int, b: int, n: nat)
    requires n > 0
    ensures (a % n + b) % n == (a + b) % n
  {
    var q := a / n;
    assert a % n + b == (a + b) + (-q) * n;
    ModShift(a + b, -q, n);
  }

  // ---------------------------------------------------------------------
  // Bitwise operators

  /** `a & b` */
  function And(a: nat, b: nat): nat
    decreases a
  {
    if a == 0 || b == 0 then 0 else 2 * And(a / 2, b / 2) + (a % 2) * (b % 2)
  }

  /** `a | b` */
  function Or(a: nat, b: nat): nat
    decreases a
  {
    if a == 0 then b
    else if b == 0 then a
    else 2 * Or(a / 2, b / 2) + (if a % 2 == 1 || b % 2 == 1 then 1 else 0)
  }

  /** `a ^ b` */
  function Xor(a: nat, b: nat): nat
    decreases a
  {
    if a == 0 then b
    else if b == 0 then a
    else 2 * Xor(a / 2, b / 2) + (a % 2 + b % 2) % 2
  }

  /** `!a` for a lane below the modulus n = 2^w: every one of the w bits flipped. */
  function Not(n: nat, a: nat): nat
    requires a < n
  {
    n - 1 - a
  }

  /** The all-ones lane below the modulus n (`-1` reinterpreted as unsigned). */
  function AllOnes(n: nat): nat
    requires n >= 1
  {
    n - 1
  }

  /** `a >> k` (logical). */
  function Shr(a: nat, k: nat): nat
  {
    DivBounded(a, Pow2(k));
    a / Pow2(k)
  }

  lemma DivBounded(a: nat, p: nat)
    requires p >= 1
    ensures 0 <= a / p <= a
  {
  }

  /** `a << k` for lanes below the modulus n: bits shifted past the top are lost. */
  function Shl(n: nat, a: nat, k: nat): nat
    requires n >= 1
  {
    a * Pow2(k) % n
  }

  /** Wrapping `a + b` modulo n. */
  function WrappingAdd(n: nat, a: nat, b: nat): nat
    requires n >= 1
  {
    (a + b) % n
  }

  /** Wrapping `a - b` modulo n. */
  function WrappingSub(n: nat, a: nat, b: nat): nat
    requires n >= 1
  {
    (a - b) % n
  }

  /** Wrapping `a * b` modulo n. */
  function WrappingMul(n: nat, a: nat, b: nat): nat
    requires n >= 1
  {
    a * b % n
  }

  // ---------------------------------------------------------------------
  // Facts about the operators

  lemma AndStep(a: nat, b: nat)
    ensures And(a, b) == 2 * And(a / 2, b / 2) + (a % 2) * (b % 2)
  {
    if a == 0 {
      assert And(a / 2, b / 2) == 0;
    } else if b == 0 {
      assert And(a / 2, b / 2) == 0;
    }
  }

  lemma OrStep(a: nat, b: nat)
    ensures Or(a, b) == 2 * Or(a / 2, b / 2) + (if a % 2 == 1 || b % 2 == 1 then 1 else 0)
  {
    if a == 0 {
      assert Or(a / 2, b / 2) == b / 2;
    } else if b == 0 {
      assert Or(a / 2, b / 2) == a / 2;
    }
  }

  lemma {:induction false} AndBounded(a: nat, b: nat)
    ensures And(a, b) <= a && And(a, b) <= b
    decreases a
  {
    if a != 0 && b != 0 {
      AndBounded(a / 2, b / 2);
    }
  }

  /** A mask of k low ones keeps the value modulo 2^k. */
  lemma {:induction false} AndLowMask(a: nat, k: nat)
    ensures And(a, Pow2(k) - 1) == a % Pow2(k)
    decreases k
  {
    if k > 0 {
      AndStep(a, Pow2(k) - 1);
      assert (Pow2(k) - 1) / 2 == Pow2(k - 1) - 1;
      assert (Pow2(k) - 1) % 2 == 1;
      AndLowMask(a / 2, k - 1);
      DivMod2(a, k);
    }
  }

  /**
   * A mask of n ones above k zeros extracts the n-bit field at bit k:
   * `a & ((2^n - 1) << k) == ((a >> k) % 2^n) << k`.
   */
  lemma {:induction false} AndFieldMask(a: nat, n: nat, k: nat)
    ensures And(a, (Pow2(n) - 1) * Pow2(k)) == a / Pow2(k) % Pow2(n) * Pow2(k)
    decreases k
  {
    if k == 0 {
      assert Pow2(0) == 1;
      var M := Pow2(n) - 1;
      assert M * Pow2(0) == M;
      assert a / Pow2(0) == a && a / Pow2(0) % Pow2(n) * Pow2(0) == a % Pow2(n);
      AndLowMask(a, n);
    } else {
      AndFieldMask(a / 2, n, k - 1);
      AndFieldMaskStep(a, n, k);
    }
  }

  lemma AndFieldMaskStep(a: nat, n: nat, k: nat)
    requires k > 0
    requires And(a / 2, (Pow2(n) - 1) * Pow2(k - 1)) == a / 2 / Pow2(k - 1) % Pow2(n) * Pow2(k - 1)
    ensures And(a, (Pow2(n) - 1) * Pow2(k)) == a / Pow2(k) % Pow2(n) * Pow2(k)
  {
    var N, P := Pow2(n) - 1, Pow2(k - 1);
    assert Pow2(k) == 2 * P;
    MulTwice(N, P);
    MulMonotone(0, N, P);
    var M, M' := N * Pow2(k), N * P;
    assert M == 2 * M';
    assert M / 2 == M' && M % 2 == 0;
    AndStep(a, M);
    DivMod2(a, k);
    var q := a / Pow2(k) % Pow2(n);
    assert And(a / 2, M') == q * Pow2(k - 1);
    MulTwice(q, Pow2(k - 1));
  }

  /** Clearing the k low bits of a w-bit value rounds it down to a multiple of 2^k. */
  lemma AndHighMask(w: nat, a: nat, k: nat)
    requires a < Pow2(w) && k <= w
    ensures Pow2(k) - 1 < Pow2(w)
    ensures And(a, Not(Pow2(w), Pow2(k) - 1)) == RoundDown(a, Pow2(k))
  {
    var P, Q := Pow2(k), Pow2(w - k);
    Pow2Add(w - k, k);
    assert Pow2(w) == Q * P;
    Pow2Monotone(k, w);
    MulPred(Q, P);
    assert Not(Pow2(w), P - 1) == (Q - 1) * P;
    AndFieldMask(a, w - k, k);
    RoundDownMultiple(a, P, Q);
  }

  /** a rounded down to a multiple of p: a with its remainder removed. */
  function RoundDown(a: nat, p: nat): (r: nat)
    requires p > 0
    ensures r == a - a % p && r % p == 0 && r <= a
  {
    MulDivMod(a / p, 0, p);
    a / p * p
  }

  lemma RoundDownMultiple(a: nat, p: nat, q: nat)
    requires p > 0 && q > 0 && a < q * p
    ensures a / p % q * p == RoundDown(a, p)
  {
    QuotientBelow(a, p, q);
    DivModUnique(a / p, q, 0, a / p);
  }

  lemma QuotientBelow(a: nat, p: nat, q: nat)
    requires p > 0 && a < q * p
    ensures a / p < q
  {
    if a / p >= q {
      MulMonotone(q, a / p, p);
      assert false;
    }
  }

  /** A single-bit mask yields either zero or that bit. */
  lemma AndBit(a: nat, k: nat)
    ensures And(a, Pow2(k)) == 0 || And(a, Pow2(k)) == Pow2(k)
  {
    AndFieldMask(a, 1, k);
  }

  /** `|` of a value below 2^k with a multiple of 2^k adds them. */
  lemma {:induction false} OrDisjoint(a: nat, b: nat, k: nat)
    requires a < Pow2(k)
    ensures Or(a, b * Pow2(k)) == a + b * Pow2(k)
    decreases k
  {
    if k > 0 {
      var B := b * Pow2(k - 1);
      assert b * Pow2(k) == 2 * B;
      assert (2 * B) / 2 == B && (2 * B) % 2 == 0;
      OrStep(a, 2 * B);
      OrDisjoint(a / 2, b, k - 1);
      assert Or(a / 2, B) == a / 2 + B;
    }
  }

  lemma XorStep(a: nat, b: nat)
    ensures Xor(a, b) == 2 * Xor(a / 2, b / 2) + (a % 2 + b % 2) % 2
  {
    var c := (a % 2 + b % 2) % 2;
    if a == 0 {
      assert c == b % 2;
      assert Xor(a / 2, b / 2) == b / 2;
    } else if b == 0 {
      assert c == a % 2;
      assert Xor(a / 2, b / 2) == a / 2;
    }
  }

  /** Shifting commutes with `^`. */
  lemma {:induction false} XorShr(a: nat, b: nat, k: nat)
    ensures Shr(Xor(a, b), k) == Xor(Shr(a, k), Shr(b, k))
    decreases k
  {
    if k > 0 {
      var x := Xor(a, b);
      assert x / 2 == Xor(a / 2, b / 2) by {
        XorStep(a, b);
        DivModUnique(x, 2, Xor(a / 2, b / 2), (a % 2 + b % 2) % 2);
      }
      assert Shr(x, k) == Shr(x / 2, k - 1) by {
        DivMod2(x, k);
      }
      assert Shr(a, k) == Shr(a / 2, k - 1) && Shr(b, k) == Shr(b / 2, k - 1) by {
        DivMod2(a, k);
        DivMod2(b, k);
      }
      XorShr(a / 2, b / 2, k - 1);
    } else {
      assert Pow2(0) == 1;
      assert Shr(Xor(a, b), 0) == Xor(a, b) && Shr(a, 0) == a && Shr(b, 0) == b;
    }
  }

  lemma ShrBounded(a: nat, k: nat)
    ensures Shr(a, k) <= a
  {
  }

  /** Shifting the all-ones value of width n right by j leaves n - j ones. */
  lemma ShrOnes(n: nat, j: nat)
    requires j <= n
    ensures Shr(Pow2(n) - 1, j) == Pow2(n - j) - 1
  {
    Pow2Divides(j, n);
    DivModUnique(Pow2(n) - 1, Pow2(j), Pow2(n - j) - 1, Pow2(j) - 1);
  }

  /** `|` of two values below 2^k stays below 2^k. */
  lemma {:induction false} OrBounded(a: nat, b: nat, k: nat)
    requires a < Pow2(k) && b < Pow2(k)
    ensures Or(a, b) < Pow2(k)
    decreases k
  {
    if k > 0 && a != 0 && b != 0 {
      OrStep(a, b);
      OrBounded(a / 2, b / 2, k - 1);
    }
  }
}
