/** Range sums over a sequence of integers, the meaning of a Fenwick tree. */
module RangeSums {
  import opened Bits

  function Sum(v: seq<int>, lo: nat, hi: nat): int
    requires lo <= hi <= |v|
    decreases hi - lo
  {
    if lo == hi then 0 else Sum(v, lo, hi - 1) + v[hi - 1]
  }

  /** No range sum leaves the range of int64_t. */
  ghost predicate Fits(v: seq<int>) {
    forall lo, hi | 0 <= lo <= hi <= |v| ::
      -0x8000_0000_0000_0000 <= Sum(v, lo, hi) < 0x8000_0000_0000_0000
  }

  ghost predicate Nonnegative(v: seq<int>) {
    forall i | 0 <= i < |v| :: v[i] >= 0
  }

  /** What cell i of the tree stands for: the values at [i - lowbit(i), i). */
  function Cell(v: seq<int>, i: nat): int
    requires 1 <= i <= |v|
  {
    Sum(v, i - Lowbit(i), i)
  }

  predicate Covers(i: nat, p: nat)
    requires i > 0
  {
    i - Lowbit(i) <= p < i
  }

  lemma {:induction false} SumSplit(v: seq<int>, lo: nat, mid: nat, hi: nat)
    requires lo <= mid <= hi <= |v|
    ensures Sum(v, lo, hi) == Sum(v, lo, mid) + Sum(v, mid, hi)
    decreases hi - mid
  {
    if mid < hi {
      SumSplit(v, lo, mid, hi - 1);
    }
  }

  lemma {:induction false} SumUpdate(v: seq<int>, p: nat, d: int, lo: nat, hi: nat)
    requires lo <= hi <= |v| && p < |v|
    ensures Sum(v[p := v[p] + d], lo, hi) == Sum(v, lo, hi) + (if lo <= p < hi then d else 0)
    decreases hi - lo
  {
    if lo < hi {
      SumUpdate(v, p, d, lo, hi - 1);
    }
  }

  lemma {:induction false} SumNonnegative(v: seq<int>, lo: nat, hi: nat)
    requires lo <= hi <= |v| && Nonnegative(v)
    ensures Sum(v, lo, hi) >= 0
    ensures forall i | lo <= i < hi :: Sum(v, lo, hi) >= v[i]
    decreases hi - lo
  {
    if lo < hi {
      SumNonnegative(v, lo, hi - 1);
    }
  }

  lemma {:induction false} SumZero(v: seq<int>, lo: nat, hi: nat)
    requires lo <= hi <= |v|
    requires forall i | lo <= i < hi :: v[i] == 0
    ensures Sum(v, lo, hi) == 0
    decreases hi - lo
  {
    if lo < hi {
      SumZero(v, lo, hi - 1);
    }
  }

  /** Nonnegative values whose total fits have range sums that all fit. */
  lemma NonnegativeFits(v: seq<int>)
    requires Nonnegative(v) && Sum(v, 0, |v|) < 0x8000_0000_0000_0000
    ensures Fits(v)
  {
    forall lo, hi | 0 <= lo <= hi <= |v|
      ensures 0 <= Sum(v, lo, hi) <= Sum(v, 0, |v|)
    {
      SumSplit(v, 0, lo, |v|);
      SumSplit(v, lo, hi, |v|);
      SumNonnegative(v, 0, lo);
      SumNonnegative(v, lo, hi);
      SumNonnegative(v, hi, |v|);
    }
  }

  /** An update of position p changes exactly the cells that cover p. */
  lemma CellUpdate(v: seq<int>, p: nat, d: int, i: nat)
    requires 1 <= i <= |v| && p < |v|
    ensures Cell(v[p := v[p] + d], i) == Cell(v, i) + (if Covers(i, p) then d else 0)
  {
    SumUpdate(v, p, d, i - Lowbit(i), i);
  }

  /** The covering cells of p form one chain: from a covering cell j the next one is j + lowbit(j). */
  lemma NextCovering(j: nat, p: nat)
    requires j > 0 && Covers(j, p)
    ensures Covers(j + Lowbit(j), p)
    ensures forall i | j < i < j + Lowbit(j) :: !Covers(i, p)
  {
    LowbitUp(j);
    forall i | j < i < j + Lowbit(j) ensures !Covers(i, p) {
      LowbitInside(j, i - j);
    }
  }

  /** What one search of the tree by binary lifting has found. */
  ghost predicate Crosses(v: seq<int>, pos: nat, target: int) {
    pos < |v| && Sum(v, 0, pos) < target <= Sum(v, 0, pos + 1)
  }

  /** The cell one power ahead of an aligned position holds the sum of the block between them. */
  lemma LiftStep(v: seq<int>, pos: nat, b: nat)
    requires Aligned(pos, b + 1) && Nonnegative(v) && pos <= |v|
    ensures Aligned(pos, b) && Aligned(pos + Pow2(b), b) && Pow2(b + 1) == 2 * Pow2(b)
    ensures pos + Pow2(b) <= |v| ==>
      0 <= Cell(v, pos + Pow2(b)) == Sum(v, 0, pos + Pow2(b)) - Sum(v, 0, pos)
  {
    AlignedStep(pos, b);
    if pos + Pow2(b) <= |v| {
      SumSplit(v, 0, pos, pos + Pow2(b));
      SumNonnegative(v, pos, pos + Pow2(b));
    }
  }

  /** The crossing lies in the 2^bits positions from pos on, and remaining is what is left of the target there. */
  ghost predicate Narrowed(v: seq<int>, target: int, pos: nat, remaining: int, bits: nat) {
    && pos <= |v| && Aligned(pos, bits) && remaining == target - Sum(v, 0, pos) && remaining > 0
    && (pos + Pow2(bits) <= |v| ==> target <= Sum(v, 0, pos + Pow2(bits)))
  }

  lemma NarrowStart(v: seq<int>, target: int, bits: nat)
    requires 0 < target && |v| < Pow2(bits)
    ensures Narrowed(v, target, 0, target, bits)
  {
    ZeroAligned(bits);
  }

  /** One halving of the range. */
  lemma Narrow(v: seq<int>, target: int, pos: nat, remaining: int, bits: nat)
    requires Nonnegative(v) && bits > 0 && Narrowed(v, target, pos, remaining, bits)
    ensures var next := pos + Pow2(bits - 1);
      if next <= |v| && Cell(v, next) < remaining
      then Cell(v, next) >= 0 && Narrowed(v, target, next, remaining - Cell(v, next), bits - 1)
      else Narrowed(v, target, pos, remaining, bits - 1)
  {
    LiftStep(v, pos, bits - 1);
  }

  lemma NarrowEnd(v: seq<int>, target: int, pos: nat, remaining: int)
    requires Narrowed(v, target, pos, remaining, 0) && target <= Sum(v, 0, |v|)
    ensures Crosses(v, pos, target)
  {
  }

  /** Crossing the full total means: the last nonzero value. */
  lemma CrossingTotalIsLast(v: seq<int>, pos: nat)
    requires Nonnegative(v) && Crosses(v, pos, Sum(v, 0, |v|))
    ensures v[pos] > 0 && forall i | pos < i < |v| :: v[i] == 0
  {
    SumSplit(v, 0, pos + 1, |v|);
    SumNonnegative(v, pos + 1, |v|);
  }

  /** Crossing 1 means: the first nonzero value. */
  lemma CrossingOneIsFirst(v: seq<int>, pos: nat)
    requires Nonnegative(v) && Crosses(v, pos, 1)
    ensures v[pos] > 0 && forall i | 0 <= i < pos :: v[i] == 0
  {
    SumNonnegative(v, 0, pos);
  }
}

/** The binary indexed tree over a fixed number n of positions. */
module Fenwick {
  import opened Machine
  import opened Bits
  import opened RangeSums

  class FenwickTree {
    const n: uint32
    const tree: array<int64>
    ghost var vals: seq<int>

    ghost predicate Valid()
      reads this, tree
    {
      1 <= n < 0x8000_0000 && tree.Length == n + 1 && |vals| == n &&
      forall i | 1 <= i <= n :: tree[i] == Cell(vals, i)
    }

    ghost function Footprint(): set<object> {
      {this, tree}
    }

    constructor (size: uint32)
      requires 1 <= size < 0x8000_0000
      ensures Valid() && n == size && fresh(tree)
      ensures vals == seq(size, _ => 0)
    {
      n := size;
      tree := new int64[size + 1](_ => 0);
      vals := seq(size, _ => 0);
      new;
      AllZero();
    }

    lemma AllZero()
      requires forall i | 0 <= i < |vals| :: vals[i] == 0
      ensures forall i | 1 <= i <= |vals| :: Cell(vals, i) == 0
    {
      forall i | 1 <= i <= |vals| ensures Cell(vals, i) == 0 {
        SumZero(vals, i - Lowbit(i), i);
      }
    }

    method Init()
      requires Valid()
      modifies this, tree
      ensures Valid() && vals == seq(n, _ => 0)
    {
      for i := 0 to n + 1
        invariant forall j | 0 <= j < i :: tree[j] == 0
      {
        tree[i] := 0;
      }
      vals := seq(n, _ => 0);
      AllZero();
    }

    /** Adds delta at idx; an index out of range changes nothing. Takes at most floor(log2 n) + 1 steps. */
    method Update(idx: uint32, delta: int64) returns (ghost steps: nat)
      requires Valid()
      requires idx < n ==> Fits(vals[idx := vals[idx] + delta])
      modifies this, tree
      ensures Valid()
      ensures vals == if idx < n then old(vals)[idx := old(vals)[idx] + delta] else old(vals)
      ensures forall i | 1 <= i <= n ::
        tree[i] == old(tree[i]) + (if idx < n && Covers(i, idx) then delta else 0)
      ensures steps <= Log2(n) + 1
    {
      hide Lowbit;
      steps := 0;
      if idx >= n { return; }
      ghost var next := vals[idx := vals[idx] + delta];
      forall j | 1 <= j <= n
        ensures Cell(next, j) == Cell(vals, j) + (if Covers(j, idx) then delta else 0)
      {
        CellUpdate(vals, idx, delta, j);
      }
      var i: uint32 := idx + 1;
      while i <= n
        invariant 1 <= i <= 2 * n
        invariant Covers(i, idx) && |next| == n && vals == old(vals)
        invariant forall j | 1 <= j <= n :: tree[j] == (if j < i then Cell(next, j) else Cell(vals, j))
        invariant Pow2(steps) <= Lowbit(i) && Pow2(steps) <= 2 * n
        decreases 2 * n - i
      {
        assert tree[i] + delta == Cell(next, i);
        tree[i] := tree[i] + delta;
        NextCovering(i, idx);
        LowbitUp(i);
        LowbitTrick(i);
        i := i + And(i, Neg32(i));
        steps := steps + 1;
      }
      StepBound(n, steps);
      vals := next;
    }

    /** The sum over [0, idx], with idx clamped to the last position. */
    method PrefixSum(idx: uint32) returns (sum: int64, ghost steps: nat)
      requires Valid() && Fits(vals)
      ensures sum == Sum(vals, 0, if idx < n then idx + 1 else n)
      ensures steps <= Log2(n) + 1
    {
      hide Lowbit;
      steps := 0;
      var i: uint32 := (if idx >= n then n - 1 else idx) + 1;
      ghost var end := i;
      sum := 0;
      while i > 0
        invariant 0 <= i <= end
        invariant sum == Sum(vals, i, end)
        invariant (i > 0 ==> Pow2(steps) <= Lowbit(i)) && Pow2(steps) <= 2 * n
      {
        SumSplit(vals, i - Lowbit(i), i, end);
        sum := sum + tree[i];
        if Lowbit(i) < i { LowbitDown(i); }
        LowbitTrick(i);
        i := i - And(i, Neg32(i));
        steps := steps + 1;
      }
      StepBound(n, steps);
    }

    /** The sum over [left, right]: empty when reversed, and clamped to the positions there are. */
    method RangeSum(left: uint32, right: uint32) returns (sum: int64)
      requires Valid() && Fits(vals)
      ensures sum == if left > right || left >= n then 0
                     else Sum(vals, left, if right < n then right + 1 else n)
    {
      if left > right { return 0; }
      if left == 0 {
        var s, _ := PrefixSum(right);
        return s;
      }
      var high, _ := PrefixSum(right);
      var low, _ := PrefixSum(left - 1);
      if left < n {
        SumSplit(vals, 0, left, if right < n then right + 1 else n);
      }
      sum := high - low;
    }

    method PointQuery(idx: uint32) returns (value: int64)
      requires Valid() && Fits(vals)
      ensures value == if idx < n then vals[idx] else 0
    {
      value := RangeSum(idx, idx);
      if idx < n { assert Sum(vals, idx, idx + 1) == Sum(vals, idx, idx) + vals[idx]; }
    }

    /** The greatest power of two that is at most n. */
    method HighestBit() returns (pw: uint32, ghost k: nat)
      requires Valid()
      ensures pw == Pow2(k) && pw <= n < 2 * pw
    {
      pw, k := 1, 0;
      while pw * 2 <= n
        invariant pw == Pow2(k) <= n
        decreases n - pw
      {
        pw, k := pw * 2, k + 1;
      }
    }

    /** Binary lifting: the position where the prefix sums first reach the target. */
    method Lift(target: int64) returns (pos: uint32, ghost steps: nat)
      requires Valid() && Fits(vals) && Nonnegative(vals)
      requires 0 < target <= Sum(vals, 0, n)
      ensures Crosses(vals, pos, target)
      ensures steps <= Log2(n) + 1
    {
      hide Narrowed, Nonnegative, Cell;
      pos, steps := 0, 0;
      var remaining: int64 := target;
      var pw, k := HighestBit();
      ghost var bits := k + 1;
      NarrowStart(vals, target, bits);
      while pw > 0
        invariant bits >= 0 && steps + bits == k + 1
        invariant pw == (if bits > 0 then Pow2(bits - 1) else 0)
        invariant pos <= n && 0 < remaining <= target && Narrowed(vals, target, pos, remaining, bits)
        decreases bits
      {
        Narrow(vals, target, pos, remaining, bits);
        if pos + pw <= n && tree[pos + pw] < remaining {
          pos := pos + pw;
          remaining := remaining - tree[pos];
        }
        assert bits > 1 ==> pw == 2 * Pow2(bits - 2);
        pw := pw / 2;
        bits := bits - 1;
        steps := steps + 1;
      }
      assert Pow2(steps) == 2 * Pow2(k);
      StepBound(n, steps);
      NarrowEnd(vals, target, pos, remaining);
    }

    /** The greatest position with a nonzero value, or n. */
    method FindLastNonzero() returns (r: uint32)
      requires Valid() && Fits(vals) && Nonnegative(vals)
      ensures r <= n
      ensures r < n ==> vals[r] > 0 && forall i | r < i < n :: vals[i] == 0
      ensures r == n ==> forall i | 0 <= i < n :: vals[i] == 0
    {
      var total, _ := PrefixSum(n - 1);
      SumNonnegative(vals, 0, n);
      if total <= 0 { return n; }
      var last, _ := Lift(total);
      r := last;
      CrossingTotalIsLast(vals, r);
    }

    /** The least position with a nonzero value, or n. */
    method FindFirstNonzero() returns (r: uint32)
      requires Valid() && Fits(vals) && Nonnegative(vals)
      ensures r <= n
      ensures r < n ==> vals[r] > 0 && forall i | 0 <= i < r :: vals[i] == 0
      ensures r == n ==> forall i | 0 <= i < n :: vals[i] == 0
    {
      var total, _ := PrefixSum(n - 1);
      SumNonnegative(vals, 0, n);
      if total <= 0 { return n; }
      var first, _ := Lift(1);
      r := first;
      CrossingOneIsFirst(vals, r);
    }
  }
}
