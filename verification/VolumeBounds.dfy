/** How large the volumes of a side can get: every order has its own slot in the pool. */
module VolumeBounds {
  import opened Machine
  import opened Distinctness
  import opened Pool
  import opened BookSpec
  import opened QueueLinks
  import opened RangeSums

  /** The volume of all queues at prices p with lo <= p <= hi. */
  function VolumeWithin(queues: seq<Queue>, lo: int, hi: int): (v: nat) {
    if queues == [] then 0
    else
      var p := |queues| - 1;
      VolumeWithin(queues[..p], lo, hi) + if lo <= p <= hi then Volume(queues[p]) else 0
  }

  lemma {:induction false} SumIsWithin(queues: seq<Queue>, n: nat, lo: nat, hi: int)
    requires n <= |queues| && lo <= n && hi >= lo - 1
    ensures VolumeWithin(queues[..n], lo, hi) == Sum(Volumes(queues), lo, if hi + 1 < n then hi + 1 else n)
    decreases n
  {
    if n > 0 {
      assert queues[..n][..n - 1] == queues[..n - 1];
      if lo < n {
        SumIsWithin(queues, n - 1, lo, hi);
      } else {
        NothingWithin(queues[..n], lo, hi);
      }
    }
  }

  lemma {:induction false} NothingWithin(queues: seq<Queue>, lo: int, hi: int)
    requires lo >= |queues| || hi < lo
    ensures VolumeWithin(queues, lo, hi) == 0
    decreases |queues|
  {
    if queues != [] { NothingWithin(queues[..|queues| - 1], lo, hi); }
  }

  /** A range sum of the volumes, cut to the prices there are, is the volume of the queues whose prices lie in it. */
  lemma RangeIsWithin(queues: seq<Queue>, low: nat, high: nat)
    ensures VolumeWithin(queues, low, high) ==
      if low > high || low >= |queues| then 0
      else Sum(Volumes(queues), low, if high < |queues| then high + 1 else |queues|)
  {
    if low > high || low >= |queues| {
      NothingWithin(queues, low, high);
    } else {
      SumIsWithin(queues, |queues|, low, high);
      assert queues[..|queues|] == queues;
    }
  }

  lemma {:induction false} WithinFromZero(queues: seq<Queue>, lo: int, hi: int)
    requires lo <= 0
    ensures VolumeWithin(queues, lo, hi) == VolumeWithin(queues, 0, hi)
    decreases |queues|
  {
    if queues != [] { WithinFromZero(queues[..|queues| - 1], lo, hi); }
  }

  lemma {:induction false} WithinToEnd(queues: seq<Queue>, lo: int, hi: int)
    requires hi >= |queues| - 1
    ensures VolumeWithin(queues, lo, hi) == VolumeWithin(queues, lo, |queues| - 1)
    decreases |queues|
  {
    if queues != [] {
      WithinToEnd(queues[..|queues| - 1], lo, hi);
      WithinToEnd(queues[..|queues| - 1], lo, |queues| - 1);
    }
  }

  /** The volume at prices from the best ask to count above it; 0 when that end wraps or there is no ask. */
  function AskDepthOf(s: Side, count: uint32): (v: nat) {
    if s.best == INVALID_PRICE || s.best + count >= TWO32 then 0 else VolumeWithin(s.queues, s.best, s.best + count)
  }

  /** The ask depth is what rests in the range asked for, unless the end of the range wraps and something does. */
  lemma AskDepthTrueIff(s: Side, count: uint32)
    ensures s.best == INVALID_PRICE || s.best + count >= TWO32 ==> AskDepthOf(s, count) == 0
    ensures s.best != INVALID_PRICE ==>
      (AskDepthOf(s, count) == VolumeWithin(s.queues, s.best, s.best + count)
       <==> s.best + count < TWO32 || VolumeWithin(s.queues, s.best, s.best + count) == 0)
  {
  }

  /** An ask of 3 at price 5 is found with a count of 0 and lost with the greatest count there is. */
  lemma AskDepthCanWrap()
    ensures var s := AddSide(false, EmptyBook(10).ask, 5, Entry(0, 7, 3));
      && AskDepthOf(s, 0) == 3 && AskDepthOf(s, 0xFFFF_FFFF) == 0
      && VolumeWithin(s.queues, s.best, s.best + 0xFFFF_FFFF) == 3
  {
    var s := AddSide(false, EmptyBook(10).ask, 5, Entry(0, 7, 3));
    HeadOff([Entry(0, 7, 3)]);
    assert s.best == 5 && s.queues[5] == [Entry(0, 7, 3)];
    forall hi: int | hi >= 5 ensures VolumeWithin(s.queues, 5, hi) == 3 {
      OneWithin(s.queues, 5, hi);
    }
  }

  lemma {:induction false} OneWithin(queues: seq<Queue>, p: nat, hi: int)
    requires p <= hi && forall t | 0 <= t < |queues| && t != p :: queues[t] == []
    ensures VolumeWithin(queues, p, hi) == if p < |queues| then Volume(queues[p]) else 0
    decreases |queues|
  {
    if queues != [] { OneWithin(queues[..|queues| - 1], p, hi); }
  }

  lemma QueueIsDistinct(orders: seq<Order>, owner: seq<nat>, tag: nat, isBid: bool,
                        queues: seq<Queue>, head: seq<uint32>, tail: seq<uint32>, p: nat)
    requires SideOk(orders, owner, tag, isBid, queues, head, tail) && p < |queues|
    ensures Distinct(Slots(queues[p]))
    ensures forall s: uint32 | s in Slots(queues[p]) :: Mine(orders, owner, tag, isBid, s) && orders[s].price == p
  {
    var q := queues[p];
    forall k | 0 <= k < |q| ensures Mine(orders, owner, tag, isBid, q[k].slot) && orders[q[k].slot].price == p {
      assert EntryOk(orders, owner, tag, isBid, p, q, k);
    }
  }

  lemma DistinctConcat(a: seq<uint32>, b: seq<uint32>)
    requires Distinct(a) && Distinct(b) && forall s | s in b :: s !in a
    ensures Distinct(a + b)
  {
    forall i, j | 0 <= i < j < |a + b| ensures (a + b)[i] != (a + b)[j] {
      if i < |a| <= j { assert (a + b)[j] in b; }
    }
  }

  /** The queues of a side hold pairwise different slots of the pool. */
  lemma {:induction false} FlatIsDistinct(orders: seq<Order>, owner: seq<nat>, tag: nat, isBid: bool,
                                          queues: seq<Queue>, head: seq<uint32>, tail: seq<uint32>, n: nat)
    requires SideOk(orders, owner, tag, isBid, queues, head, tail) && n <= |queues|
    ensures Distinct(Flat(queues[..n]))
    ensures forall s: uint32 | s in Flat(queues[..n]) ::
      Mine(orders, owner, tag, isBid, s) && orders[s].price < n
  {
    hide SideOk, Slots;
    if n > 0 {
      FlatIsDistinct(orders, owner, tag, isBid, queues, head, tail, n - 1);
      QueueIsDistinct(orders, owner, tag, isBid, queues, head, tail, n - 1);
      assert queues[..n][..n - 1] == queues[..n - 1] && queues[..n][n - 1] == queues[n - 1];
      DistinctConcat(Flat(queues[..n - 1]), Slots(queues[n - 1]));
    }
  }

  lemma {:induction false} VolumeByCount(q: Queue)
    ensures Volume(q) <= |q| * 0xFFFF_FFFF
    decreases |q|
  {
    if q != [] { VolumeByCount(q[1..]); }
  }

  lemma {:induction false} SumByCount(queues: seq<Queue>, n: nat)
    requires n <= |queues|
    ensures Sum(Volumes(queues), 0, n) <= |Flat(queues[..n])| * 0xFFFF_FFFF
  {
    if n > 0 {
      SumByCount(queues, n - 1);
      assert queues[..n][..n - 1] == queues[..n - 1];
      VolumeByCount(queues[n - 1]);
    }
  }

  /**
   * With at most maxOrders slots, every range sum of the volumes lies in
   * [0, maxOrders * (2^32 - 1)], so no Fenwick cell and no prefix sum leaves int64.
   */
  lemma VolumesFit(orders: seq<Order>, owner: seq<nat>, tag: nat, isBid: bool,
                   queues: seq<Queue>, head: seq<uint32>, tail: seq<uint32>)
    requires SideOk(orders, owner, tag, isBid, queues, head, tail)
    ensures Nonnegative(Volumes(queues)) && Fits(Volumes(queues))
    ensures forall lo, hi | 0 <= lo <= hi <= |queues| ::
      0 <= Sum(Volumes(queues), lo, hi) <= |orders| * 0xFFFF_FFFF
  {
    var n, v := |queues|, Volumes(queues);
    FlatIsDistinct(orders, owner, tag, isBid, queues, head, tail, n);
    SumByCount(queues, n);
    assert queues[..n] == queues;
    forall i | 0 <= i < |Flat(queues)| ensures Flat(queues)[i] < |orders| {
      assert Flat(queues)[i] in Flat(queues);
    }
    Pigeonhole(Flat(queues), |orders|);
    NonnegativeFits(v);
    forall lo, hi | 0 <= lo <= hi <= n ensures 0 <= Sum(v, lo, hi) <= Sum(v, 0, n) {
      SumSplit(v, 0, lo, n);
      SumSplit(v, lo, hi, n);
      SumNonnegative(v, 0, lo);
      SumNonnegative(v, lo, hi);
      SumNonnegative(v, hi, n);
    }
  }
}
