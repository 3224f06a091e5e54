/** One side of the book that keeps its volumes in a Fenwick tree and finds its best price by lifting. */
module BitSides {
  import opened Machine
  import opened Distinctness
  import opened Pool
  import opened BookSpec
  import opened QueueLinks
  import opened Levels
  import opened RangeSums
  import opened Fenwick
  import opened VolumeBounds

  class BitSide {
    const q: LevelQueues
    const bit: FenwickTree
    var best: uint32

    ghost function Footprint(): set<object> {
      {this} + q.Footprint() + bit.Footprint()
    }

    ghost function Abs(): Side
      reads this, q, q.qty
    {
      Side(q.queues, q.qty[..], best)
    }

    ghost predicate Own()
      reads Footprint()
    {
      && q.Own() && Shaped(q.isBid, Abs())
      && bit.Valid() && bit.n == q.levels && bit.vals == Volumes(q.queues)
      && bit.Footprint() !! q.Footprint()
    }

    ghost predicate Valid()
      reads Footprint(), q.pool.Footprint()
    {
      Own() && q.Valid()
    }

    constructor (pool: OrderPool, isBid: bool, size: uint32, ghost book: nat)
      requires pool.Valid() && 1 <= size < 0x8000_0000
      requires forall s: uint32 | s < pool.capacity :: pool.orders[s].active ==> pool.owner[s] != book
      ensures Valid() && q.pool == pool && q.isBid == isBid && q.levels == size && q.tag == book
      ensures Abs() == EmptySide(isBid, size)
      ensures fresh(q.Footprint()) && fresh(bit.Footprint())
    {
      hide SideOk, FreelistOk;
      q := new LevelQueues(pool, isBid, size, book);
      bit := new FenwickTree(size);
      best := NoBest(isBid);
    }

    method Enqueue(price: uint32, orderId: uint64, qty: uint32) returns (idx: uint32)
      requires Valid()
      modifies Footprint(), q.pool.Footprint()
      ensures Valid()
      ensures if price >= q.levels || old(q.pool.free) == []
              then idx == NULL_IDX && Abs() == old(Abs()) && q.pool.free == old(q.pool.free)
              else && idx == old(q.pool.free)[0] && q.pool.free == old(q.pool.free)[1..]
                   && Abs() == AddSide(q.isBid, old(Abs()), price, Entry(idx, orderId, qty))
      ensures SideFrame(old(q.pool.orders[..]), old(q.pool.owner), q.pool.orders[..], q.pool.owner, q.tag, q.isBid)
    {
      hide SideOk, SideFrame, FreelistOk, Fits;
      SideFrameSame(q.pool.orders[..], q.pool.owner, q.tag, q.isBid);
      if price >= q.levels { return NULL_IDX; }
      ghost var wasFree := q.pool.free;
      FreeSlotsInRange(q.pool);
      idx := q.Append(price, orderId, qty);
      if idx == NULL_IDX { return; }
      AddVolumes(old(q.queues), price, Entry(idx, orderId, qty));
      Account(price, qty, old(q.queues));
      if q.isBid {
        if price > best { best := price; }
      } else {
        if price < best { best := price; }
      }
    }

    lemma FreeSlotsInRange(pool: OrderPool)
      requires pool.Valid()
      ensures pool.free != [] ==> pool.free[0] != NULL_IDX
    {
    }

    /** Takes an active order of this side out of its queue and out of the volume tree. */
    method Remove(idx: uint32) returns (ghost k: nat)
      requires Valid() && Mine(q.pool.orders[..], q.pool.owner, q.tag, q.isBid, idx)
      modifies q.Footprint(), bit.Footprint(), q.pool.Footprint()
      ensures Valid()
      ensures var price, was := old(q.pool.orders[idx].price), old(Abs());
        && price < q.levels && k < |was.queues[price]| && was.queues[price][k].slot == idx
        && (forall j | 0 <= j < |was.queues[price]| && was.queues[price][j].slot == idx :: j == k)
        && Abs() == Side(was.queues[price := Without(was.queues[price], k)],
                         was.level[price := if was.level[price] >= was.queues[price][k].qty
                                             then was.level[price] - was.queues[price][k].qty else 0],
                         was.best)
      ensures q.pool.free == [idx] + old(q.pool.free)
      ensures SideFrame(old(q.pool.orders[..]), old(q.pool.owner), q.pool.orders[..], q.pool.owner, q.tag, q.isBid)
    {
      hide SideOk, SideFrame, FreelistOk, Fits, Volumes;
      var price, qty := q.pool.orders[idx].price, q.pool.orders[idx].qty;
      k := q.Unlink(idx);
      DropVolumes(old(q.queues), price, k);
      Account(price, -(qty as int), old(q.queues));
    }

    /** Takes an active order of this side out. */
    method Dequeue(idx: uint32) returns (ghost k: nat)
      requires Valid() && Mine(q.pool.orders[..], q.pool.owner, q.tag, q.isBid, idx)
      modifies Footprint(), q.pool.Footprint()
      ensures Valid()
      ensures var price := old(q.pool.orders[idx].price);
        && price < q.levels && k < |old(q.queues)[price]| && old(q.queues)[price][k].slot == idx
        && (forall j | 0 <= j < |old(q.queues)[price]| && old(q.queues)[price][j].slot == idx :: j == k)
        && Abs() == DropSide(Lifting, q.isBid, old(Abs()), price, k)
      ensures q.pool.free == [idx] + old(q.pool.free)
      ensures SideFrame(old(q.pool.orders[..]), old(q.pool.owner), q.pool.orders[..], q.pool.owner, q.tag, q.isBid)
    {
      hide SideOk, SideFrame, FreelistOk, Fits, Volumes;
      var price := q.pool.orders[idx].price;
      k := Remove(idx);
      if price == best && q.qty[price] == 0 {
        VolumesFit(q.pool.orders[..], q.pool.owner, q.tag, q.isBid, q.queues, q.head[..], q.tail[..]);
        UpdateBest();
      }
    }

    /** Brings the tree up to a change of the queue at one price. */
    method Account(price: uint32, delta: int64, ghost before: seq<Queue>)
      requires q.Valid() && bit.Valid() && bit.n == q.levels && price < q.levels && bit.Footprint() !! q.Footprint()
      requires |before| == q.levels && bit.vals == Volumes(before)
      requires Volumes(q.queues) == Volumes(before)[price := Volumes(before)[price] + delta]
      modifies bit.Footprint()
      ensures bit.Valid() && bit.vals == Volumes(q.queues)
    {
      hide SideOk, Fits, Volumes;
      VolumesFit(q.pool.orders[..], q.pool.owner, q.tag, q.isBid, q.queues, q.head[..], q.tail[..]);
      ghost var _ := bit.Update(price, delta);
    }

    /** A partial fill of the order at the head of the queue at a price. */
    method Shrink(price: uint32, quantity: uint32)
      requires Valid() && price < q.levels && q.queues[price] != [] && quantity < q.queues[price][0].qty
      modifies Footprint(), q.pool.Footprint()
      ensures Valid() && q.pool.free == old(q.pool.free)
      ensures Abs() == ShrinkSide(old(Abs()), price, quantity)
      ensures SideFrame(old(q.pool.orders[..]), old(q.pool.owner), q.pool.orders[..], q.pool.owner, q.tag, q.isBid)
    {
      hide SideOk, SideFrame, FreelistOk, Fits, Volumes;
      ghost var queues := q.queues;
      ShrinkVolumes(queues, price, quantity);
      q.Shrink(price, quantity);
      Account(price, -(quantity as int), queues);
    }

    method UpdateBest()
      requires Own() && Fits(bit.vals)
      modifies this
      ensures Own() && Abs() == old(Abs()).(best := VolumeBest(q.isBid, q.queues))
    {
      hide Fits, VolumeBest;
      var idx;
      if q.isBid {
        idx := bit.FindLastNonzero();
        best := if idx < q.levels then idx else 0;
      } else {
        idx := bit.FindFirstNonzero();
        best := if idx < q.levels then idx else INVALID_PRICE;
      }
      assert forall t | 0 <= t < q.levels :: bit.vals[t] == Volume(q.queues[t]);
      BestIsUnique(q.isBid, q.queues, idx);
    }

    /** Consumes the queue at a price from its head. */
    method Trade(price: uint32, qty: uint32) returns (filled: uint32, ghost released: seq<uint32>)
      requires Valid()
      modifies Footprint(), q.pool.Footprint()
      ensures Valid()
      ensures if price >= q.levels then filled == 0 && released == [] && Abs() == old(Abs())
              else Fill(Abs(), filled, released) == TradeSide(Lifting, q.isBid, old(Abs()), price, qty)
      ensures q.pool.free == Release(old(q.pool.free), released)
      ensures SideFrame(old(q.pool.orders[..]), old(q.pool.owner), q.pool.orders[..], q.pool.owner, q.tag, q.isBid)
    {
      hide SideOk, SideFrame, FreelistOk, Fits, DropSide, TradeSide, Trading, Repair, Volumes;
      released := [];
      filled := 0;
      SideFrameSame(q.pool.orders[..], q.pool.owner, q.tag, q.isBid);
      if price >= q.levels { return; }
      var left: uint32 := qty;
      ghost var whole := TradeSide(Lifting, q.isBid, Abs(), price, qty);
      TradingStarts(Lifting, q.isBid, Abs(), price, qty);
      while left > 0 && q.head[price] != NULL_IDX
        invariant Valid() && filled + left <= qty
        invariant Trading(Lifting, q.isBid, whole, Abs(), price, left, filled, released)
        invariant q.pool.free == Release(old(q.pool.free), released)
        invariant SideFrame(old(q.pool.orders[..]), old(q.pool.owner), q.pool.orders[..], q.pool.owner, q.tag, q.isBid)
        decreases |q.queues[price]|, left
      {
        ghost var mid, midOwner := q.pool.orders[..], q.pool.owner;
        TailInRange(mid, midOwner, q.tag, q.isBid, q.queues, q.head[..], q.tail[..], price);
        var idx := q.head[price];
        var o := q.pool.orders[idx];
        if o.qty <= left {
          TradingTakes(Lifting, q.isBid, whole, Abs(), price, left, filled, released);
          filled := filled + o.qty;
          left := left - o.qty;
          ghost var k := Dequeue(idx);
          ReleaseConcat(old(q.pool.free), released, [idx]);
          released := released + [idx];
        } else {
          TradingShrinks(Lifting, q.isBid, whole, Abs(), price, left, filled, released);
          Shrink(price, left);
          filled := filled + left;
          left := 0;
        }
        SideFrameChain(old(q.pool.orders[..]), old(q.pool.owner), mid, midOwner,
                       q.pool.orders[..], q.pool.owner, q.tag, q.isBid);
      }
      TailInRange(q.pool.orders[..], q.pool.owner, q.tag, q.isBid, q.queues, q.head[..], q.tail[..], price);
      TradingEnds(Lifting, q.isBid, whole, Abs(), price, left, filled, released);
    }

    /** The tree and the best price of a side whose queues and totals have been emptied. */
    method Reset()
      requires q.Own() && bit.Valid() && bit.n == q.levels && bit.Footprint() !! q.Footprint()
      requires q.queues == EmptySide(q.isBid, q.levels).queues && q.qty[..] == EmptySide(q.isBid, q.levels).level
      modifies this, bit.Footprint()
      ensures Own() && Abs() == EmptySide(q.isBid, q.levels)
    {
      bit.Init();
      best := NoBest(q.isBid);
    }
  }
}
