/** The book that keeps level totals only and scans them for its best prices. */
module ScanBook {
  import opened Machine
  import opened Pool
  import opened BookSpec
  import opened QueueLinks
  import opened Locating
  import opened Clearing
  import opened ScanSides

  class MBOBook {
    const pool: OrderPool
    const bid: ScanSide
    const ask: ScanSide
    const levels: uint32
    ghost const tag: nat

    ghost function Footprint(): set<object> {
      {this} + bid.Footprint() + ask.Footprint()
    }

    /** The parts that never change: which pool, which sides, and that the sides share nothing. */
    ghost predicate Wired() {
      && bid.q.pool == ask.q.pool == pool && bid.q.tag == ask.q.tag == tag
      && bid.q.isBid && !ask.q.isBid && bid.q.levels == ask.q.levels == levels
      && bid.Footprint() !! ask.Footprint()
    }

    ghost predicate Own()
      reads Footprint()
    {
      Wired() && bid.Own() && ask.Own()
    }

    ghost predicate Linked()
      reads Footprint(), pool.Footprint(), bid.q.pool.Footprint(), ask.q.pool.Footprint()
    {
      bid.q.Linked() && ask.q.Linked()
    }

    ghost predicate Valid()
      reads Footprint(), pool.Footprint(), bid.q.pool.Footprint(), ask.q.pool.Footprint()
    {
      Own() && pool.Valid() && Linked()
    }

    ghost function Abs(): Book
      reads Footprint()
    {
      Book(bid.Abs(), ask.Abs())
    }

    /** The book together with the freelist it draws on. */
    ghost function State(): Desk
      reads Footprint(), pool
    {
      Desk(Abs(), pool.free)
    }

    constructor (orderPool: OrderPool, size: uint32, ghost book: nat)
      requires orderPool.Valid() && 1 <= size < 0x8000_0000
      requires forall s: uint32 | s < orderPool.capacity :: orderPool.orders[s].active ==> orderPool.owner[s] != book
      ensures Wired() && Valid() && pool == orderPool && levels == size && tag == book
      ensures Abs() == EmptyBook(size)
      ensures fresh(Footprint())
    {
      hide SideOk, FreelistOk;
      pool, levels, tag := orderPool, size, book;
      bid := new ScanSide(orderPool, true, size, book);
      ask := new ScanSide(orderPool, false, size, book);
    }

    method EnqueueBid(price: uint32, orderId: uint64, qty: uint32) returns (idx: uint32)
      requires Valid()
      modifies Footprint(), pool.Footprint()
      ensures Valid() && (State(), Handle(idx)) == Step(Scan, old(State()), Enqueue(true, price, orderId, qty))
      ensures BookFrame(old(pool.orders[..]), old(pool.owner), pool.orders[..], pool.owner, tag)
    {
      hide SideOk, SideFrame, BookFrame, FreelistOk, AddSide;
      idx := bid.Enqueue(price, orderId, qty);
      OtherSideStays(old(pool.orders[..]), old(pool.owner), pool.orders[..], pool.owner, tag, true,
                     ask.q.queues, ask.q.head[..], ask.q.tail[..]);
    }

    method EnqueueAsk(price: uint32, orderId: uint64, qty: uint32) returns (idx: uint32)
      requires Valid()
      modifies Footprint(), pool.Footprint()
      ensures Valid() && (State(), Handle(idx)) == Step(Scan, old(State()), Enqueue(false, price, orderId, qty))
      ensures BookFrame(old(pool.orders[..]), old(pool.owner), pool.orders[..], pool.owner, tag)
    {
      hide SideOk, SideFrame, BookFrame, FreelistOk, AddSide;
      idx := ask.Enqueue(price, orderId, qty);
      OtherSideStays(old(pool.orders[..]), old(pool.owner), pool.orders[..], pool.owner, tag, false,
                     bid.q.queues, bid.q.head[..], bid.q.tail[..]);
    }

    /** Removes the order behind a handle; the null handle and handles of freed slots are ignored. */
    method Dequeue(idx: uint32)
      requires Valid()
      requires idx == NULL_IDX || (idx < pool.capacity && (pool.orders[idx].active ==> pool.owner[idx] == tag))
      modifies Footprint(), pool.Footprint()
      ensures Valid() && (State(), Done) == Step(Scan, old(State()), BookSpec.Dequeue(idx))
      ensures BookFrame(old(pool.orders[..]), old(pool.owner), pool.orders[..], pool.owner, tag)
    {
      hide SideOk, SideFrame, BookFrame, FreelistOk, DropSide;
      BookFrameSame(pool.orders[..], pool.owner, tag);
      FindOwned(pool.orders[..], pool.owner, tag, Abs(), idx,
                bid.q.head[..], bid.q.tail[..], ask.q.head[..], ask.q.tail[..]);
      if idx == NULL_IDX { return; }
      var o := pool.orders[idx];
      if !o.active { return; }
      if o.isBid {
        ghost var k := bid.Dequeue(idx);
        OtherSideStays(old(pool.orders[..]), old(pool.owner), pool.orders[..], pool.owner, tag, true,
                       ask.q.queues, ask.q.head[..], ask.q.tail[..]);
      } else {
        ghost var k := ask.Dequeue(idx);
        OtherSideStays(old(pool.orders[..]), old(pool.owner), pool.orders[..], pool.owner, tag, false,
                       bid.q.queues, bid.q.head[..], bid.q.tail[..]);
      }
    }

    method TradeBid(price: uint32, qty: uint32) returns (filled: uint32)
      requires Valid()
      modifies Footprint(), pool.Footprint()
      ensures Valid() && (State(), Filled(filled)) == Step(Scan, old(State()), Trade(true, price, qty))
      ensures BookFrame(old(pool.orders[..]), old(pool.owner), pool.orders[..], pool.owner, tag)
    {
      hide SideOk, SideFrame, BookFrame, FreelistOk, TradeSide;
      ghost var released;
      filled, released := bid.Trade(price, qty);
      OtherSideStays(old(pool.orders[..]), old(pool.owner), pool.orders[..], pool.owner, tag, true,
                     ask.q.queues, ask.q.head[..], ask.q.tail[..]);
    }

    method TradeAsk(price: uint32, qty: uint32) returns (filled: uint32)
      requires Valid()
      modifies Footprint(), pool.Footprint()
      ensures Valid() && (State(), Filled(filled)) == Step(Scan, old(State()), Trade(false, price, qty))
      ensures BookFrame(old(pool.orders[..]), old(pool.owner), pool.orders[..], pool.owner, tag)
    {
      hide SideOk, SideFrame, BookFrame, FreelistOk, TradeSide;
      ghost var released;
      filled, released := ask.Trade(price, qty);
      OtherSideStays(old(pool.orders[..]), old(pool.owner), pool.orders[..], pool.owner, tag, false,
                     bid.q.queues, bid.q.head[..], bid.q.tail[..]);
    }

    /** Frees every order of the book, then makes it empty. */
    method Clear()
      requires Valid()
      modifies Footprint(), pool.Footprint()
      ensures Valid() && (State(), Done) == Step(Scan, old(State()), BookSpec.Clear)
      ensures BookFrame(old(pool.orders[..]), old(pool.owner), pool.orders[..], pool.owner, tag)
    {
      hide SideOk, SideFrame, BookFrame, FreelistOk, ClearOrder, AddSide, DropSide, TradeSide, Release, Find, Slots;
      hide EmptySide;
      FreeAll();
      StartOver();
    }

    /** Makes the book empty once its orders are freed. */
    method StartOver()
      requires Own() && pool.Valid()
      requires bid.q.queues == EmptySide(true, levels).queues && ask.q.queues == EmptySide(false, levels).queues
      requires var nulls := seq(levels, _ => NULL_IDX);
        && SideOk(pool.orders[..], pool.owner, tag, true, bid.q.queues, nulls, nulls)
        && SideOk(pool.orders[..], pool.owner, tag, false, ask.q.queues, nulls, nulls)
      modifies Footprint()
      ensures Valid() && Abs() == EmptyBook(levels)
    {
      hide SideOk, FreelistOk;
      ResetAll();
      bid.Reset();
      ask.Reset();
    }

    /** The second pass: resets the arrays of every level. */
    method ResetAll()
      requires Wired() && bid.q.Own() && ask.q.Own()
      modifies bid.q.head, bid.q.tail, bid.q.qty, ask.q.head, ask.q.tail, ask.q.qty
      ensures bid.q.Own() && ask.q.Own()
      ensures var nulls := seq(levels, _ => NULL_IDX);
        bid.q.head[..] == nulls && bid.q.tail[..] == nulls && ask.q.head[..] == nulls && ask.q.tail[..] == nulls
      ensures bid.q.qty[..] == EmptySide(true, levels).level && ask.q.qty[..] == EmptySide(false, levels).level
    {
      for i := 0 to levels
        invariant bid.q.Own() && ask.q.Own()
        invariant forall p | 0 <= p < i :: bid.q.head[..][p] == bid.q.tail[..][p] == NULL_IDX && bid.q.qty[..][p] == 0
        invariant forall p | 0 <= p < i :: ask.q.head[..][p] == ask.q.tail[..][p] == NULL_IDX && ask.q.qty[..][p] == 0
      {
        bid.q.ResetLevel(i);
        ask.q.ResetLevel(i);
      }
    }

    /** What stays true while the orders are being freed: the links are those of the ghost arrays. */
    ghost predicate Unfinished(bh: seq<uint32>, bt: seq<uint32>, ah: seq<uint32>, at: seq<uint32>)
      reads Footprint(), pool.Footprint(), bid.q.pool.Footprint(), ask.q.pool.Footprint()
    {
      && Wired() && pool.Valid() && bid.q.Own() && ask.q.Own() && |bh| == |bt| == |ah| == |at| == levels
      && SideOk(pool.orders[..], pool.owner, tag, true, bid.q.queues, bh, bt)
      && SideOk(pool.orders[..], pool.owner, tag, false, ask.q.queues, ah, at)
    }

    /** Frees the orders of every level; heads, tails and totals are left for the second pass. */
    method FreeAll()
      requires Valid()
      modifies bid.q`queues, ask.q`queues, pool.Footprint()
      ensures Wired() && pool.Valid() && bid.q.Own() && ask.q.Own()
      ensures bid.q.queues == EmptySide(true, levels).queues && ask.q.queues == EmptySide(false, levels).queues
      ensures var nulls := seq(levels, _ => NULL_IDX);
        && SideOk(pool.orders[..], pool.owner, tag, true, bid.q.queues, nulls, nulls)
        && SideOk(pool.orders[..], pool.owner, tag, false, ask.q.queues, nulls, nulls)
      ensures pool.free == Release(old(pool.free), ClearOrder(old(Abs()), 0))
      ensures BookFrame(old(pool.orders[..]), old(pool.owner), pool.orders[..], pool.owner, tag)
    {
      hide SideOk, SideFrame, BookFrame, FreelistOk, ClearOrder;
      ghost var b := Abs();
      ghost var bh: seq<uint32>, bt: seq<uint32> := bid.q.head[..], bid.q.tail[..];
      ghost var ah: seq<uint32>, at: seq<uint32> := ask.q.head[..], ask.q.tail[..];
      BookFrameSame(pool.orders[..], pool.owner, tag);
      var i := 0;
      while i < levels
        invariant 0 <= i <= levels && Unfinished(bh, bt, ah, at)
        invariant forall p | 0 <= p < levels ::
          bid.q.queues[p] == (if p < i then [] else b.bid.queues[p])
            && ask.q.queues[p] == (if p < i then [] else b.ask.queues[p])
        invariant forall p | 0 <= p < levels :: if p < i then bh[p] == bt[p] == ah[p] == at[p] == NULL_IDX
                                                else bh[p] == bid.q.head[p] && ah[p] == ask.q.head[p]
        invariant Release(pool.free, ClearOrder(b, i)) == Release(old(pool.free), ClearOrder(b, 0))
        invariant BookFrame(old(pool.orders[..]), old(pool.owner), pool.orders[..], pool.owner, tag)
      {
        ghost var orders, owner, free := pool.orders[..], pool.owner, pool.free;
        FreeLevel(i, bh, bt, ah, at);
        bh, bt, ah, at := bh[i := NULL_IDX], bt[i := NULL_IDX], ah[i := NULL_IDX], at[i := NULL_IDX];
        ClearOrderNext(b, i, free);
        BookFrameChain(old(pool.orders[..]), old(pool.owner), orders, owner, pool.orders[..], pool.owner, tag);
        i := i + 1;
      }
      ClearOrderEnd(b, i, pool.free);
      ghost var nulls := seq(levels, _ => NULL_IDX);
      assert bh == nulls && bt == nulls && ah == nulls && at == nulls;
      assert bid.q.queues == EmptySide(true, levels).queues && ask.q.queues == EmptySide(false, levels).queues;
    }

    method FreeLevel(i: uint32, ghost bh: seq<uint32>, ghost bt: seq<uint32>, ghost ah: seq<uint32>,
                     ghost at: seq<uint32>)
      requires Unfinished(bh, bt, ah, at) && i < levels && bid.q.head[i] == bh[i] && ask.q.head[i] == ah[i]
      modifies bid.q`queues, ask.q`queues, pool.Footprint()
      ensures Unfinished(bh[i := NULL_IDX], bt[i := NULL_IDX], ah[i := NULL_IDX], at[i := NULL_IDX])
      ensures bid.q.queues == old(bid.q.queues)[i := []] && ask.q.queues == old(ask.q.queues)[i := []]
      ensures pool.free == Release(old(pool.free), Slots(old(bid.q.queues)[i]) + Slots(old(ask.q.queues)[i]))
      ensures BookFrame(old(pool.orders[..]), old(pool.owner), pool.orders[..], pool.owner, tag)
    {
      hide SideOk, SideFrame, BookFrame, FreelistOk, Slots;
      bid.q.FreeChain(i, bh, bt);
      ghost var orders, owner := pool.orders[..], pool.owner;
      OtherSideStays(old(pool.orders[..]), old(pool.owner), orders, owner, tag, true, ask.q.queues, ah, at);
      ask.q.FreeChain(i, ah, at);
      OtherSideStays(orders, owner, pool.orders[..], pool.owner, tag, false,
                     bid.q.queues, bh[i := NULL_IDX], bt[i := NULL_IDX]);
      BookFrameChain(old(pool.orders[..]), old(pool.owner), orders, owner, pool.orders[..], pool.owner, tag);
      ReleaseConcat(old(pool.free), Slots(old(bid.q.queues)[i]), Slots(old(ask.q.queues)[i]));
    }
  }
}
