/**
 Binary arithmetic of non-negative integers: the bit helpers of the transparency log, as
 recursive functions, the loops that compute them, and the facts about the top bit that relate
 them to a tree split at the largest power of two.
 */
module Bits {

  function Pow2(k: nat): (p: nat)
    ensures p >= 1
  {
    if k == 0 then 1 else 2 * Pow2(k - 1)
  }

  function BitLength(x: nat): nat {
    if x == 0 then 0 else 1 + BitLength(x / 2)
  }

  function Popcount(x: nat): nat {
    if x == 0 then 0 else x % 2 + Popcount(x / 2)
  }

  function TrailingZeros(x: nat): nat {
    if x == 0 || x % 2 == 1 then 0 else 1 + TrailingZeros(x / 2)
  }

  function Xor(a: nat, b: nat): nat {
    if a == 0 && b == 0 then 0
    else (if a % 2 == b % 2 then 0 else 1) + 2 * Xor(a / 2, b / 2)
  }

  /** `x` shifted right by `s` places. */
  function Shr(x: nat, s: nat): nat
    decreases s
  {
    if s == 0 then x else Shr(x / 2, s - 1)
  }

  /** The 32-bit shift operator: only the low five bits of the shift count are used. */
  function Shr32(x: nat, s: nat): nat {
    if s < 32 then Shr(x, s) else Shr32(x, s - 32)
  }

  predicate Bit(x: nat, i: nat) {
    Shr(x, i) % 2 == 1
  }

  // --- the loops ---

  method ComputeBitLength(x: nat) returns (n: nat)
    ensures n == BitLength(x)
  {
    n := 0;
    var v := x;
    while v > 0
      invariant n + BitLength(v) == BitLength(x)
    {
      n := n + 1;
      v := v / 2;
    }
  }

  method ComputePopcount(x: nat) returns (c: nat)
    ensures c == Popcount(x)
  {
    c := 0;
    var v := x;
    while v > 0
      invariant c + Popcount(v) == Popcount(x)
    {
      c := c + v % 2;
      v := v / 2;
    }
  }

  method ComputeTrailingZeros(x: int) returns (n: nat)
    ensures x <= 0 ==> n == 0
    ensures x > 0 ==> n == TrailingZeros(x)
  {
    if x <= 0 { return 0; }
    n := 0;
    var v := x;
    while v % 2 == 0
      invariant v > 0
      invariant n + TrailingZeros(v) == TrailingZeros(x)
      decreases v
    {
      n := n + 1;
      v := v / 2;
    }
  }

  // --- powers of two ---

  lemma {:induction false} Pow2Monotone(a: nat, b: nat)
    requires a <= b
    ensures Pow2(a) <= Pow2(b)
    decreases b - a
  {
    if a >= b {
    } else {
      Pow2Monotone(a + 1, b);
    }
  }

  /** `BitLength(x)` is the least number of bits that hold `x`. */
  lemma {:induction false} BitLengthBounds(x: nat)
    ensures x < Pow2(BitLength(x))
    ensures x > 0 ==> Pow2(BitLength(x) - 1) <= x
  {
    if x <= 1 {
    } else {
      BitLengthBounds(x / 2);
    }
  }

  lemma {:induction false} BitLengthUnique(x: nat, j: nat)
    requires Pow2(j) <= x < Pow2(j + 1)
    ensures BitLength(x) == j + 1
  {
    if j == 0 {
    } else {
      assert Pow2(j + 1) == 2 * Pow2(j) && Pow2(j) == 2 * Pow2(j - 1);
      BitLengthUnique(x / 2, j - 1);
    }
  }

  lemma {:induction false} BitLengthMonotone(x: nat, y: nat)
    requires x <= y
    ensures BitLength(x) <= BitLength(y)
  {
    if x == 0 {
    } else {
      BitLengthMonotone(x / 2, y / 2);
    }
  }

  lemma {:induction false} BitLengthBelow(x: nat, j: nat)
    requires x < Pow2(j)
    ensures BitLength(x) <= j
  {
    if x > 0 && j > 0 { BitLengthBelow(x / 2, j - 1); }
  }

  // --- what a top bit at place `j` does ---

  lemma {:induction false} XorBelow(j: nat, a: nat, b: nat)
    requires a < Pow2(j) && b < Pow2(j)
    ensures Xor(a, b) < Pow2(j)
  {
    if j == 0 {
    } else {
      XorBelow(j - 1, a / 2, b / 2);
    }
  }

  /** Equal top bits cancel. */
  lemma {:induction false} XorBothTop(j: nat, a: nat, b: nat)
    requires a < Pow2(j) && b < Pow2(j)
    ensures Xor(a + Pow2(j), b + Pow2(j)) == Xor(a, b)
  {
    if j == 0 {
    } else {
      assert (a + Pow2(j)) / 2 == a / 2 + Pow2(j - 1) && (b + Pow2(j)) / 2 == b / 2 + Pow2(j - 1);
      XorBothTop(j - 1, a / 2, b / 2);
    }
  }

  /** A top bit on one side only survives. */
  lemma {:induction false} XorOneTop(j: nat, a: nat, b: nat)
    requires a < Pow2(j) && b < Pow2(j)
    ensures Xor(a, b + Pow2(j)) == Xor(a, b) + Pow2(j)
  {
    if j == 0 {
    } else {
      assert (b + Pow2(j)) / 2 == b / 2 + Pow2(j - 1);
      XorOneTop(j - 1, a / 2, b / 2);
    }
  }

  lemma {:induction false} ShrTop(j: nat, a: nat, i: nat)
    requires a < Pow2(j) && i <= j
    ensures Shr(a + Pow2(j), i) == Shr(a, i) + Pow2(j - i)
    ensures Shr(a, i) < Pow2(j - i)
  {
    if i == 0 {
    } else {
      assert (a + Pow2(j)) / 2 == a / 2 + Pow2(j - 1);
      ShrTop(j - 1, a / 2, i - 1);
    }
  }

  lemma BitTop(j: nat, a: nat, i: nat)
    requires a < Pow2(j) && i < j
    ensures Bit(a + Pow2(j), i) == Bit(a, i)
  {
    ShrTop(j, a, i);
    assert Pow2(j - i) == 2 * Pow2(j - i - 1);
  }

  lemma HalfAdd(a: nat, q: nat)
    ensures (a + 2 * q) / 2 == a / 2 + q && (a + 2 * q) % 2 == a % 2
  {
  }

  lemma PopcountStep(x: nat)
    ensures Popcount(x) == x % 2 + Popcount(x / 2)
  {
  }

  lemma {:induction false} PopcountTop(j: nat, a: nat)
    requires a < Pow2(j)
    ensures Popcount(a + Pow2(j)) == Popcount(a) + 1
  {
    hide Popcount;
    PopcountStep(a + Pow2(j));
    PopcountStep(a);
    if j > 0 {
      HalfAdd(a, Pow2(j - 1));
      PopcountTop(j - 1, a / 2);
    } else {
      PopcountStep(0);
    }
  }

  lemma {:induction false} ShrZero(a: nat, j: nat)
    requires a < Pow2(j)
    ensures Shr(a, j) == 0
  {
    if j == 0 {
    } else {
      ShrZero(a / 2, j - 1);
    }
  }

  /** Bit `j` of a number below `Pow2(j + 1)` says whether it reaches `Pow2(j)`. */
  lemma TopBit(j: nat, a: nat)
    requires a < Pow2(j + 1)
    ensures Bit(a, j) == (a >= Pow2(j))
  {
    if a >= Pow2(j) {
      ShrTop(j, a - Pow2(j), j);
      ShrZero(a - Pow2(j), j);
    } else {
      ShrZero(a, j);
    }
  }

  lemma {:induction false} ShrAdd(x: nat, s: nat, t: nat)
    ensures Shr(x, s + t) == Shr(Shr(x, s), t)
  {
    if s == 0 {
    } else {
      ShrAdd(x / 2, s - 1, t);
    }
  }

  // --- the lowest set bit ---

  lemma {:induction false} TrailingZerosTop(j: nat, a: nat)
    requires 0 < a < Pow2(j)
    ensures TrailingZeros(a + Pow2(j)) == TrailingZeros(a) < j
  {
    if j > 0 && a % 2 == 0 {
      assert (a + Pow2(j)) / 2 == a / 2 + Pow2(j - 1);
      TrailingZerosTop(j - 1, a / 2);
    }
  }

  lemma {:induction false} TrailingZerosPow2(j: nat)
    ensures TrailingZeros(Pow2(j)) == j
  {
    if j == 0 {
    } else {
      TrailingZerosPow2(j - 1);
    }
  }
}
