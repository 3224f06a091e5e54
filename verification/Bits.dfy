/** The lowest set bit of an index, and how index ranges nest around it. */
module Bits {
  import opened Machine

  function Pow2(k: nat): (r: nat)
    ensures r > 0
  {
    if k == 0 then 1 else 2 * Pow2(k - 1)
  }

  lemma {:induction false} Pow2Grows(a: nat, b: nat)
    requires a <= b
    ensures Pow2(a) <= Pow2(b)
    decreases b
  {
    if a < b { Pow2Grows(a, b - 1); }
  }

  /** The binary logarithm, rounded down. */
  function Log2(n: nat): (k: nat)
    requires n > 0
    ensures Pow2(k) <= n < Pow2(k + 1)
  {
    if n == 1 then 0 else 1 + Log2(n / 2)
  }

  lemma StepBound(n: nat, steps: nat)
    requires n > 0 && Pow2(steps) <= 2 * n
    ensures steps <= Log2(n) + 1
  {
    if steps >= Log2(n) + 2 { Pow2Grows(Log2(n) + 2, steps); }
  }

  /** Bitwise and, bit by bit from the lowest. */
  function And(a: nat, b: nat): nat {
    if a == 0 || b == 0 then 0
    else (if a % 2 == 1 && b % 2 == 1 then 1 else 0) + 2 * And(a / 2, b / 2)
  }

  /** The value of the lowest set bit. */
  function Lowbit(n: nat): (r: nat)
    requires n > 0
    ensures 1 <= r <= n
  {
    if n % 2 == 1 then 1 else 2 * Lowbit(n / 2)
  }

  /** A number and its complement within k bits share no bit. */
  lemma {:induction false} AndComplement(k: nat, m: nat)
    requires m < Pow2(k)
    ensures And(m, Pow2(k) - 1 - m) == 0
  {
    if k > 0 && m > 0 && Pow2(k) - 1 - m > 0 {
      AndComplement(k - 1, m / 2);
      assert (Pow2(k) - 1 - m) / 2 == Pow2(k - 1) - 1 - m / 2;
    }
  }

  lemma {:induction false} AndNegation(k: nat, x: nat)
    requires 0 < x < Pow2(k)
    ensures And(x, Pow2(k) - x) == Lowbit(x)
  {
    if x % 2 == 1 {
      AndComplement(k - 1, x / 2);
      assert (Pow2(k) - x) / 2 == Pow2(k - 1) - 1 - x / 2;
    } else {
      AndNegation(k - 1, x / 2);
      assert (Pow2(k) - x) / 2 == Pow2(k - 1) - x / 2;
    }
  }

  /** The expression idx & (-idx) on a nonzero uint32_t is its lowest set bit. */
  lemma LowbitTrick(x: uint32)
    requires x > 0
    ensures And(x, Neg32(x)) == Lowbit(x)
  {
    hide And, Lowbit;
    assert Pow2(8) == 0x100;
    assert Pow2(16) == 0x100 * Pow2(8);
    assert Pow2(24) == 0x100 * Pow2(16);
    assert Pow2(32) == 0x100 * Pow2(24);
    AndNegation(32, x);
  }

  /** Below its lowest bit, a number can be added to without moving the sum's lowest bit. */
  lemma {:induction false} LowbitInside(j: nat, r: nat)
    requires j > 0 && 0 < r < Lowbit(j)
    ensures Lowbit(j + r) == Lowbit(r)
  {
    if r % 2 == 0 {
      LowbitInside(j / 2, r / 2);
      assert (j + r) / 2 == j / 2 + r / 2;
    }
  }

  lemma {:induction false} LowbitUp(j: nat)
    requires j > 0
    ensures Lowbit(j + Lowbit(j)) >= 2 * Lowbit(j)
  {
    if j % 2 == 0 {
      LowbitUp(j / 2);
      assert (j + Lowbit(j)) / 2 == j / 2 + Lowbit(j / 2);
    }
  }

  lemma {:induction false} LowbitDown(j: nat)
    requires j > 0 && Lowbit(j) < j
    ensures Lowbit(j - Lowbit(j)) >= 2 * Lowbit(j)
  {
    if j % 2 == 0 {
      LowbitDown(j / 2);
      assert (j - Lowbit(j)) / 2 == j / 2 - Lowbit(j / 2);
    }
  }

  /** The low k bits of pos are zero. */
  predicate Aligned(pos: nat, k: nat) {
    k == 0 || (pos % 2 == 0 && Aligned(pos / 2, k - 1))
  }

  lemma {:induction false} ZeroAligned(k: nat)
    ensures Aligned(0, k)
  {
    if k > 0 { ZeroAligned(k - 1); }
  }

  /** Adding 2^k to a number whose low k+1 bits are zero makes 2^k the lowest bit. */
  lemma {:induction false} AlignedStep(pos: nat, k: nat)
    requires Aligned(pos, k + 1)
    ensures Aligned(pos, k) && Aligned(pos + Pow2(k), k)
    ensures Lowbit(pos + Pow2(k)) == Pow2(k)
    decreases k
  {
    if k > 0 {
      AlignedStep(pos / 2, k - 1);
      assert (pos + Pow2(k)) / 2 == pos / 2 + Pow2(k - 1);
    }
  }
}
