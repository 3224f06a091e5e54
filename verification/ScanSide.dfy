/** One side of the book that finds its best price by scanning level totals. */
module ScanSides {
  import opened Machine
  import opened Pool
  import opened BookSpec
  import opened QueueLinks
  import opened Levels

  class ScanSide {
    const q: LevelQueues
    var best: uint32

    ghost function Footprint(): set<object> {
      {this} + q.Footprint()
    }

    ghost function Abs(): Side
      reads this, q, q.qty
    {
      Side(q.queues, q.qty[..], best)
    }

    ghost predicate Own()
      reads Footprint()
    {
      q.Own() && Shaped(q.isBid, Abs())
    }

    ghost predicate Valid()
      reads Footprint(), q.pool.Footprint()
    {
      Own() && q.Valid()
    }

    constructor (pool: OrderPool, isBid: bool, size: uint32, ghost book: nat)
      requires pool.Valid() && 1 <= size < 0x8000_0000
      requires forall s: uint32 | s < pool.capacity :: pool.orders[s].active ==> pool.owner[s] != book
      ensures Valid() && q.pool == pool && q.isBid == isBid && q.levels == size && q.tag == book
      ensures Abs() == EmptySide(isBid, size)
      ensures fresh(q.Footprint())
    {
      q := new LevelQueues(pool, isBid, size, book);
      best := NoBest(isBid);
    }

    method Enqueue(price: uint32, orderId: uint64, qty: uint32) returns (idx: uint32)
      requires Valid()
      modifies Footprint(), q.pool.Footprint()
      ensures Valid()
      ensures if price >= q.levels || old(q.pool.free) == []
              then idx == NULL_IDX && Abs() == old(Abs()) && q.pool.free == old(q.pool.free)
              else && idx == old(q.pool.free)[0] && q.pool.free == old(q.pool.free)[1..]
                   && Abs() == AddSide(q.isBid, old(Abs()), price, Entry(idx, orderId, qty))
      ensures SideFrame(old(q.pool.orders[..]), old(q.pool.owner), q.pool.orders[..], q.pool.owner, q.tag, q.isBid)
    {
      hide SideOk, SideFrame, FreelistOk;
      SideFrameSame(q.pool.orders[..], q.pool.owner, q.tag, q.isBid);
      if price >= q.levels { return NULL_IDX; }
      ghost var wasFree := q.pool.free;
      FreeSlotsInRange(q.pool);
      idx := q.Append(price, orderId, qty);
      if idx == NULL_IDX { return; }
      if q.isBid {
        if price > best { best := price; }
      } else {
        if price < best { best := price; }
      }
    }

    lemma FreeSlotsInRange(pool: OrderPool)
      requires pool.Valid()
      ensures pool.free != [] ==> pool.free[0] != NULL_IDX
    {
    }

    /** Takes an active order of this side out. */
    method Dequeue(idx: uint32) returns (ghost k: nat)
      requires Valid() && Mine(q.pool.orders[..], q.pool.owner, q.tag, q.isBid, idx)
      modifies Footprint(), q.pool.Footprint()
      ensures Valid()
      ensures var price := old(q.pool.orders[idx].price);
        && price < q.levels && k < |old(q.queues)[price]| && old(q.queues)[price][k].slot == idx
        && (forall j | 0 <= j < |old(q.queues)[price]| && old(q.queues)[price][j].slot == idx :: j == k)
        && Abs() == DropSide(Scan, q.isBid, old(Abs()), price, k)
      ensures q.pool.free == [idx] + old(q.pool.free)
      ensures SideFrame(old(q.pool.orders[..]), old(q.pool.owner), q.pool.orders[..], q.pool.owner, q.tag, q.isBid)
    {
      hide SideOk, SideFrame, FreelistOk;
      var price := q.pool.orders[idx].price;
      k := q.Unlink(idx);
      if price == best && q.qty[price] == 0 {
        UpdateBest();
      }
    }

    /** The scan for the best price, from wherever it is. */
    method UpdateBest()
      requires Own()
      modifies this
      ensures Own() && Abs() == old(Abs()).(best := ScanBest(q.isBid, old(q.qty[..]), old(best)))
    {
      ghost var level := q.qty[..];
      if q.isBid {
        while best > 0 && q.qty[best] == 0
          invariant best < q.levels && ScanDown(level, best) == ScanDown(level, old(best))
          decreases best
        {
          best := best - 1;
        }
        if q.qty[best] == 0 { best := 0; }
      } else {
        while best < q.levels && q.qty[best] == 0
          invariant best <= q.levels || best == INVALID_PRICE
          invariant ScanUp(level, best) == ScanUp(level, old(best))
          decreases q.levels - best
        {
          best := best + 1;
        }
        if best >= q.levels || q.qty[best] == 0 { best := INVALID_PRICE; }
      }
    }

    /** Consumes the queue at a price from its head. */
    method Trade(price: uint32, qty: uint32) returns (filled: uint32, ghost released: seq<uint32>)
      requires Valid()
      modifies Footprint(), q.pool.Footprint()
      ensures Valid()
      ensures if price >= q.levels then filled == 0 && released == [] && Abs() == old(Abs())
              else Fill(Abs(), filled, released) == TradeSide(Scan, q.isBid, old(Abs()), price, qty)
      ensures q.pool.free == Release(old(q.pool.free), released)
      ensures SideFrame(old(q.pool.orders[..]), old(q.pool.owner), q.pool.orders[..], q.pool.owner, q.tag, q.isBid)
    {
      hide SideOk, SideFrame, FreelistOk, DropSide, TradeSide, Trading, Repair;
      released := [];
      filled := 0;
      SideFrameSame(q.pool.orders[..], q.pool.owner, q.tag, q.isBid);
      if price >= q.levels { return; }
      var left: uint32 := qty;
      ghost var whole := TradeSide(Scan, q.isBid, Abs(), price, qty);
      TradingStarts(Scan, q.isBid, Abs(), price, qty);
      while left > 0 && q.head[price] != NULL_IDX
        invariant Valid() && filled + left <= qty
        invariant Trading(Scan, q.isBid, whole, Abs(), price, left, filled, released)
        invariant q.pool.free == Release(old(q.pool.free), released)
        invariant SideFrame(old(q.pool.orders[..]), old(q.pool.owner), q.pool.orders[..], q.pool.owner, q.tag, q.isBid)
        decreases |q.queues[price]|, left
      {
        ghost var mid, midOwner := q.pool.orders[..], q.pool.owner;
        TailInRange(mid, midOwner, q.tag, q.isBid, q.queues, q.head[..], q.tail[..], price);
        var idx := q.head[price];
        var o := q.pool.orders[idx];
        if o.qty <= left {
          TradingTakes(Scan, q.isBid, whole, Abs(), price, left, filled, released);
          filled := filled + o.qty;
          left := left - o.qty;
          ghost var k := Dequeue(idx);
          ReleaseConcat(old(q.pool.free), released, [idx]);
          released := released + [idx];
        } else {
          TradingShrinks(Scan, q.isBid, whole, Abs(), price, left, filled, released);
          q.Shrink(price, left);
          filled := filled + left;
          left := 0;
        }
        SideFrameChain(old(q.pool.orders[..]), old(q.pool.owner), mid, midOwner,
                       q.pool.orders[..], q.pool.owner, q.tag, q.isBid);
      }
      TailInRange(q.pool.orders[..], q.pool.owner, q.tag, q.isBid, q.queues, q.head[..], q.tail[..], price);
      TradingEnds(Scan, q.isBid, whole, Abs(), price, left, filled, released);
    }

    /** The best price of a side whose queues and totals have been emptied. */
    method Reset()
      requires q.Own()
      requires q.queues == EmptySide(q.isBid, q.levels).queues && q.qty[..] == EmptySide(q.isBid, q.levels).level
      modifies this
      ensures Own() && Abs() == EmptySide(q.isBid, q.levels)
    {
      best := NoBest(q.isBid);
    }
  }
}
