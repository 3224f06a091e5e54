/** Where a book keeps the order behind a handle. */
module Locating {
  import opened Machine
  import opened Pool
  import opened BookSpec
  import opened QueueLinks

  lemma LocatedIsMine(orders: seq<Order>, owner: seq<nat>, tag: nat, isBid: bool,
                      queues: seq<Queue>, head: seq<uint32>, tail: seq<uint32>, p: uint32, k: nat)
    requires SideOk(orders, owner, tag, isBid, queues, head, tail) && p < |queues| && k < |queues[p]|
    ensures var s := queues[p][k].slot; Mine(orders, owner, tag, isBid, s) && orders[s].price == p
  {
    assert EntryOk(orders, owner, tag, isBid, p, queues[p], k);
  }

  /** A handle names at most one resting order of a book: the one its slot says. */
  lemma FindOwned(orders: seq<Order>, owner: seq<nat>, tag: nat, b: Book, slot: uint32,
                  bh: seq<uint32>, bt: seq<uint32>, ah: seq<uint32>, at: seq<uint32>)
    requires SideOk(orders, owner, tag, true, b.bid.queues, bh, bt)
    requires SideOk(orders, owner, tag, false, b.ask.queues, ah, at)
    ensures |orders| == |owner|
    ensures var f := Find(b, slot);
      if slot < |orders| && orders[slot].active && owner[slot] == tag
      then f.Some? && f.value.isBid == orders[slot].isBid && f.value.price == orders[slot].price
      else f.None?
  {
    forall l | At(b, l, slot)
      ensures slot < |orders| && Mine(orders, owner, tag, l.isBid, slot) && orders[slot].price == l.price
    {
      if l.isBid {
        LocatedIsMine(orders, owner, tag, true, b.bid.queues, bh, bt, l.price, l.k);
      } else {
        LocatedIsMine(orders, owner, tag, false, b.ask.queues, ah, at, l.price, l.k);
      }
    }
    if slot < |orders| && orders[slot].active && owner[slot] == tag {
      var k;
      if orders[slot].isBid {
        k := FindSlot(orders, owner, tag, true, b.bid.queues, bh, bt, slot);
      } else {
        k := FindSlot(orders, owner, tag, false, b.ask.queues, ah, at, slot);
      }
      assert At(b, Loc(orders[slot].isBid, orders[slot].price, k), slot);
    }
  }

  /** The record of an order has its id and quantity, and links to the orders before and after it in its queue. */
  predicate RecordTells(orders: seq<Order>, q: Queue, k: nat)
    requires k < |q| && q[k].slot < |orders|
  {
    var o := orders[q[k].slot];
    && o.orderId == q[k].id && o.qty == q[k].qty
    && o.prev == (if k > 0 then q[k - 1].slot else 0xFFFF_FFFF)
    && o.next == (if k + 1 < |q| then q[k + 1].slot else 0xFFFF_FFFF)
  }

  /** Wherever a slot rests in a book, its record tells the place. */
  ghost predicate RecordsTell(orders: seq<Order>, b: Book, slot: uint32) {
    forall l | At(b, l, slot) ::
      && slot < |orders| && l.isBid == orders[slot].isBid && l.price == orders[slot].price
      && RecordTells(orders, SideOf(b, l.isBid).queues[l.price], l.k)
  }

  /** An order is at one place of a book only, and its record names that place. */
  lemma LocatedOnce(orders: seq<Order>, owner: seq<nat>, tag: nat, b: Book, slot: uint32, l: Loc,
                    bh: seq<uint32>, bt: seq<uint32>, ah: seq<uint32>, at: seq<uint32>)
    requires SideOk(orders, owner, tag, true, b.bid.queues, bh, bt)
    requires SideOk(orders, owner, tag, false, b.ask.queues, ah, at)
    requires At(b, l, slot)
    ensures |orders| == |owner| && slot < |orders| && orders[slot].active && owner[slot] == tag
    ensures l.isBid == orders[slot].isBid && l.price == orders[slot].price
    ensures RecordTells(orders, SideOf(b, l.isBid).queues[l.price], l.k)
    ensures forall l' | At(b, l', slot) :: l' == l
  {
    forall m | At(b, m, slot)
      ensures |orders| == |owner| && Mine(orders, owner, tag, m.isBid, slot) && orders[slot].price == m.price
    {
      if m.isBid {
        LocatedIsMine(orders, owner, tag, true, b.bid.queues, bh, bt, m.price, m.k);
      } else {
        LocatedIsMine(orders, owner, tag, false, b.ask.queues, ah, at, m.price, m.k);
      }
    }
    assert QueueOk(orders, owner, tag, l.isBid, l.price, SideOf(b, l.isBid).queues[l.price]);
    assert EntryOk(orders, owner, tag, l.isBid, l.price, SideOf(b, l.isBid).queues[l.price], l.k);
  }

  /** After a change on one side the whole book is linked again, and no other book was touched. */
  lemma OtherSideStays(o0: seq<Order>, w0: seq<nat>, o1: seq<Order>, w1: seq<nat>, tag: nat, isBid: bool,
                       queues: seq<Queue>, head: seq<uint32>, tail: seq<uint32>)
    requires SideFrame(o0, w0, o1, w1, tag, isBid) && SideOk(o0, w0, tag, !isBid, queues, head, tail)
    ensures SideOk(o1, w1, tag, !isBid, queues, head, tail) && BookFrame(o0, w0, o1, w1, tag)
  {
    SideFrameKeepsOtherSide(o0, w0, o1, w1, tag, isBid, queues, head, tail);
    SideFrameIsBookFrame(o0, w0, o1, w1, tag, isBid);
  }

  lemma BookFrameChain(o0: seq<Order>, w0: seq<nat>, o1: seq<Order>, w1: seq<nat>, o2: seq<Order>, w2: seq<nat>,
                       tag: nat)
    requires BookFrame(o0, w0, o1, w1, tag) && BookFrame(o1, w1, o2, w2, tag)
    ensures BookFrame(o0, w0, o2, w2, tag)
  {
  }

  lemma BookFrameSame(o: seq<Order>, w: seq<nat>, tag: nat)
    requires |o| == |w|
    ensures BookFrame(o, w, o, w, tag)
  {
  }
}

/** Clearing a book level by level, on values. */
module Clearing {
  import opened Machine
  import opened Pool
  import opened BookSpec

  /** A side whose levels below i have been emptied. */
  ghost predicate Cleared(s: Side, i: nat, queues: seq<Queue>, qty: seq<uint32>) {
    && i <= |s.queues| == |queues| == |qty| == |s.level|
    && forall p | 0 <= p < |queues| ::
         queues[p] == (if p < i then [] else s.queues[p]) && (p < i ==> qty[p] == 0)
  }

  lemma ClearedNone(s: Side)
    requires |s.queues| == |s.level|
    ensures Cleared(s, 0, s.queues, s.level)
  {
  }

  lemma ClearedNext(s: Side, i: nat, queues: seq<Queue>, qty: seq<uint32>)
    requires Cleared(s, i, queues, qty) && i < |s.queues|
    ensures |queues| == |qty| == |s.queues| && queues[i] == s.queues[i]
    ensures Cleared(s, i + 1, queues[i := []], qty[i := 0])
  {
  }

  lemma ClearedAll(isBid: bool, s: Side, queues: seq<Queue>, qty: seq<uint32>)
    requires Cleared(s, |s.queues|, queues, qty)
    ensures queues == EmptySide(isBid, |s.queues|).queues && qty == EmptySide(isBid, |s.queues|).level
  {
  }

  lemma ClearOrderNext(b: Book, i: nat, free: seq<uint32>)
    requires i < |b.bid.queues| == |b.ask.queues|
    ensures Release(Release(free, Slots(b.bid.queues[i]) + Slots(b.ask.queues[i])), ClearOrder(b, i + 1))
         == Release(free, ClearOrder(b, i))
  {
    ReleaseConcat(free, Slots(b.bid.queues[i]) + Slots(b.ask.queues[i]), ClearOrder(b, i + 1));
  }

  lemma ClearOrderEnd(b: Book, i: nat, free: seq<uint32>)
    requires i == |b.bid.queues| == |b.ask.queues|
    ensures Release(free, ClearOrder(b, i)) == free
  {
  }
}

/** The book with a Fenwick tree of volumes on each side. */
module BitBook {
  import opened Machine
  import opened Pool
  import opened BookSpec
  import opened QueueLinks
  import opened Locating
  import opened Clearing
  import opened BitSides
  import opened RangeSums
  import opened VolumeBounds

  class MBOBookWithBIT {
    const pool: OrderPool
    const bid: BitSide
    const ask: BitSide
    const levels: uint32
    ghost const tag: nat

    ghost function Footprint(): set<object> {
      {this} + bid.Footprint() + ask.Footprint()
    }

    /** The parts that never change: which pool, which sides, and that the sides share nothing. */
    ghost predicate Wired() {
      && bid.q.pool == ask.q.pool == pool && bid.q.tag == ask.q.tag == tag
      && bid.q.isBid && !ask.q.isBid && bid.q.levels == ask.q.levels == levels
      && bid.Footprint() !! ask.Footprint()
    }

    ghost predicate Own()
      reads Footprint()
    {
      Wired() && bid.Own() && ask.Own()
    }

    ghost predicate Linked()
      reads Footprint(), pool.Footprint(), bid.q.pool.Footprint(), ask.q.pool.Footprint()
    {
      bid.q.Linked() && ask.q.Linked()
    }

    ghost predicate Valid()
      reads Footprint(), pool.Footprint(), bid.q.pool.Footprint(), ask.q.pool.Footprint()
    {
      Own() && pool.Valid() && Linked()
    }

    ghost function Abs(): Book
      reads Footprint()
    {
      Book(bid.Abs(), ask.Abs())
    }

    /** The book together with the freelist it draws on. */
    ghost function State(): Desk
      reads Footprint(), pool
    {
      Desk(Abs(), pool.free)
    }

    constructor (orderPool: OrderPool, size: uint32, ghost book: nat)
      requires orderPool.Valid() && 1 <= size < 0x8000_0000
      requires forall s: uint32 | s < orderPool.capacity :: orderPool.orders[s].active ==> orderPool.owner[s] != book
      ensures Wired() && Valid() && pool == orderPool && levels == size && tag == book
      ensures Abs() == EmptyBook(size)
      ensures fresh(Footprint())
    {
      hide SideOk, FreelistOk, Fits;
      pool, levels, tag := orderPool, size, book;
      bid := new BitSide(orderPool, true, size, book);
      ask := new BitSide(orderPool, false, size, book);
    }

    /** The links of this book in given contents of the pool. */
    ghost predicate LinkedTo(orders: seq<Order>, owner: seq<nat>)
      reads Footprint()
    {
      && SideOk(orders, owner, tag, true, bid.q.queues, bid.q.head[..], bid.q.tail[..])
      && SideOk(orders, owner, tag, false, ask.q.queues, ask.q.head[..], ask.q.tail[..])
    }

    lemma ValidByParts()
      ensures Own() && pool.Valid() ==> (Valid() <==> LinkedTo(pool.orders[..], pool.owner))
      ensures Valid() ==> Own() && pool.Valid() && LinkedTo(pool.orders[..], pool.owner)
    {
    }

    /** An order of this book is at one place, the one its record names; any other slot is nowhere in it. */
    lemma Places(orders: seq<Order>, owner: seq<nat>, slot: uint32)
      requires LinkedTo(orders, owner)
      ensures |orders| == |owner|
      ensures Rests(Abs(), slot) <==> slot < |orders| && orders[slot].active && owner[slot] == tag
      ensures RecordsTell(orders, Abs(), slot)
      ensures forall l, l' | At(Abs(), l, slot) && At(Abs(), l', slot) :: l == l'
    {
      hide SideOk;
      FindOwned(orders, owner, tag, Abs(), slot, bid.q.head[..], bid.q.tail[..], ask.q.head[..], ask.q.tail[..]);
      forall l | At(Abs(), l, slot)
        ensures slot < |orders| && l.isBid == orders[slot].isBid && l.price == orders[slot].price
        ensures RecordTells(orders, SideOf(Abs(), l.isBid).queues[l.price], l.k)
        ensures forall l' | At(Abs(), l', slot) :: l' == l
      {
        LocatedOnce(orders, owner, tag, Abs(), slot, l, bid.q.head[..], bid.q.tail[..], ask.q.head[..], ask.q.tail[..]);
      }
    }

    lemma NothingDone()
      requires Valid()
      ensures BookFrame(pool.orders[..], pool.owner, pool.orders[..], pool.owner, tag)
    {
    }

    /** A change to the pool on behalf of another book leaves this book linked as it was. */
    lemma StaysLinked(o0: seq<Order>, w0: seq<nat>, o1: seq<Order>, w1: seq<nat>, other: nat)
      requires LinkedTo(o0, w0) && BookFrame(o0, w0, o1, w1, other) && tag != other
      ensures LinkedTo(o1, w1)
    {
      BookFrameKeepsOthers(o0, w0, o1, w1, other, tag, true, bid.q.queues, bid.q.head[..], bid.q.tail[..]);
      BookFrameKeepsOthers(o0, w0, o1, w1, other, tag, false, ask.q.queues, ask.q.head[..], ask.q.tail[..]);
    }

    method EnqueueBid(price: uint32, orderId: uint64, qty: uint32) returns (idx: uint32)
      requires Valid()
      modifies Footprint(), pool.Footprint()
      ensures Valid() && (State(), Handle(idx)) == Step(Lifting, old(State()), Enqueue(true, price, orderId, qty))
      ensures BookFrame(old(pool.orders[..]), old(pool.owner), pool.orders[..], pool.owner, tag)
    {
      hide SideOk, SideFrame, BookFrame, FreelistOk, Fits, Volumes, AddSide;
      idx := bid.Enqueue(price, orderId, qty);
      OtherSideStays(old(pool.orders[..]), old(pool.owner), pool.orders[..], pool.owner, tag, true,
                     ask.q.queues, ask.q.head[..], ask.q.tail[..]);
    }

    method EnqueueAsk(price: uint32, orderId: uint64, qty: uint32) returns (idx: uint32)
      requires Valid()
      modifies Footprint(), pool.Footprint()
      ensures Valid() && (State(), Handle(idx)) == Step(Lifting, old(State()), Enqueue(false, price, orderId, qty))
      ensures BookFrame(old(pool.orders[..]), old(pool.owner), pool.orders[..], pool.owner, tag)
    {
      hide SideOk, SideFrame, BookFrame, FreelistOk, Fits, Volumes, AddSide;
      idx := ask.Enqueue(price, orderId, qty);
      OtherSideStays(old(pool.orders[..]), old(pool.owner), pool.orders[..], pool.owner, tag, false,
                     bid.q.queues, bid.q.head[..], bid.q.tail[..]);
    }

    /** Removes the order behind a handle; the null handle and handles of freed slots are ignored. */
    method Dequeue(idx: uint32)
      requires Valid()
      requires idx == NULL_IDX || (idx < pool.capacity && (pool.orders[idx].active ==> pool.owner[idx] == tag))
      modifies Footprint(), pool.Footprint()
      ensures Valid() && (State(), Done) == Step(Lifting, old(State()), BookSpec.Dequeue(idx))
      ensures BookFrame(old(pool.orders[..]), old(pool.owner), pool.orders[..], pool.owner, tag)
    {
      hide SideOk, SideFrame, BookFrame, FreelistOk, Fits, Volumes, DropSide;
      BookFrameSame(pool.orders[..], pool.owner, tag);
      FindOwned(pool.orders[..], pool.owner, tag, Abs(), idx,
                bid.q.head[..], bid.q.tail[..], ask.q.head[..], ask.q.tail[..]);
      if idx == NULL_IDX { return; }
      var o := pool.orders[idx];
      if !o.active { return; }
      if o.isBid {
        ghost var k := bid.Dequeue(idx);
        OtherSideStays(old(pool.orders[..]), old(pool.owner), pool.orders[..], pool.owner, tag, true,
                       ask.q.queues, ask.q.head[..], ask.q.tail[..]);
      } else {
        ghost var k := ask.Dequeue(idx);
        OtherSideStays(old(pool.orders[..]), old(pool.owner), pool.orders[..], pool.owner, tag, false,
                       bid.q.queues, bid.q.head[..], bid.q.tail[..]);
      }
    }

    method TradeBid(price: uint32, qty: uint32) returns (filled: uint32)
      requires Valid()
      modifies Footprint(), pool.Footprint()
      ensures Valid() && (State(), Filled(filled)) == Step(Lifting, old(State()), Trade(true, price, qty))
      ensures BookFrame(old(pool.orders[..]), old(pool.owner), pool.orders[..], pool.owner, tag)
    {
      hide SideOk, SideFrame, BookFrame, FreelistOk, Fits, Volumes, TradeSide;
      ghost var released;
      filled, released := bid.Trade(price, qty);
      OtherSideStays(old(pool.orders[..]), old(pool.owner), pool.orders[..], pool.owner, tag, true,
                     ask.q.queues, ask.q.head[..], ask.q.tail[..]);
    }

    method TradeAsk(price: uint32, qty: uint32) returns (filled: uint32)
      requires Valid()
      modifies Footprint(), pool.Footprint()
      ensures Valid() && (State(), Filled(filled)) == Step(Lifting, old(State()), Trade(false, price, qty))
      ensures BookFrame(old(pool.orders[..]), old(pool.owner), pool.orders[..], pool.owner, tag)
    {
      hide SideOk, SideFrame, BookFrame, FreelistOk, Fits, Volumes, TradeSide;
      ghost var released;
      filled, released := ask.Trade(price, qty);
      OtherSideStays(old(pool.orders[..]), old(pool.owner), pool.orders[..], pool.owner, tag, false,
                     bid.q.queues, bid.q.head[..], bid.q.tail[..]);
    }

    /** Frees every order of the book and makes it empty. */
    method Clear()
      requires Valid()
      modifies Footprint(), pool.Footprint()
      ensures Valid() && (State(), Done) == Step(Lifting, old(State()), BookSpec.Clear)
      ensures BookShaped(old(Abs())) && Abs() == EmptyBook(levels)
      ensures pool.free == Release(old(pool.free), ClearOrder(old(Abs()), 0))
      ensures BookFrame(old(pool.orders[..]), old(pool.owner), pool.orders[..], pool.owner, tag)
    {
      hide SideOk, SideFrame, BookFrame, FreelistOk, Fits, Volumes, ClearOrder, Cleared, Release;
      ghost var b := Abs();
      BookFrameSame(pool.orders[..], pool.owner, tag);
      ClearedNone(b.bid);
      ClearedNone(b.ask);
      var i := 0;
      while i < levels
        invariant 0 <= i <= levels && Unfinished()
        invariant Cleared(b.bid, i, bid.q.queues, bid.q.qty[..]) && Cleared(b.ask, i, ask.q.queues, ask.q.qty[..])
        invariant Release(pool.free, ClearOrder(b, i)) == Release(old(pool.free), ClearOrder(b, 0))
        invariant BookFrame(old(pool.orders[..]), old(pool.owner), pool.orders[..], pool.owner, tag)
      {
        ghost var orders, owner, free := pool.orders[..], pool.owner, pool.free;
        ClearedNext(b.bid, i, bid.q.queues, bid.q.qty[..]);
        ClearedNext(b.ask, i, ask.q.queues, ask.q.qty[..]);
        ClearLevel(i);
        ClearOrderNext(b, i, free);
        BookFrameChain(old(pool.orders[..]), old(pool.owner), orders, owner, pool.orders[..], pool.owner, tag);
        i := i + 1;
      }
      ClearOrderEnd(b, i, pool.free);
      ClearedAll(true, b.bid, bid.q.queues, bid.q.qty[..]);
      ClearedAll(false, b.ask, ask.q.queues, ask.q.qty[..]);
      bid.Reset();
      ask.Reset();
    }

    /** What stays true while the levels are being cleared. */
    ghost predicate Unfinished()
      reads Footprint(), pool.Footprint(), bid.q.pool.Footprint(), ask.q.pool.Footprint()
    {
      && Wired() && pool.Valid() && Linked()
      && bid.q.Own() && bid.bit.Valid() && bid.bit.n == levels && bid.bit.Footprint() !! bid.q.Footprint()
      && ask.q.Own() && ask.bit.Valid() && ask.bit.n == levels && ask.bit.Footprint() !! ask.q.Footprint()
    }

    method ClearLevel(i: uint32)
      requires Unfinished() && i < levels
      modifies bid.q.Footprint(), ask.q.Footprint(), pool.Footprint()
      ensures Unfinished()
      ensures bid.q.queues == old(bid.q.queues)[i := []] && bid.q.qty[..] == old(bid.q.qty[..])[i := 0]
      ensures ask.q.queues == old(ask.q.queues)[i := []] && ask.q.qty[..] == old(ask.q.qty[..])[i := 0]
      ensures pool.free == Release(old(pool.free), Slots(old(bid.q.queues)[i]) + Slots(old(ask.q.queues)[i]))
      ensures BookFrame(old(pool.orders[..]), old(pool.owner), pool.orders[..], pool.owner, tag)
    {
      hide SideOk, SideFrame, BookFrame, FreelistOk, Fits, Slots;
      TailInRange(pool.orders[..], pool.owner, tag, true, bid.q.queues, bid.q.head[..], bid.q.tail[..], i);
      bid.q.FreeChain(i, bid.q.head[..], bid.q.tail[..]);
      ghost var orders, owner := pool.orders[..], pool.owner;
      OtherSideStays(old(pool.orders[..]), old(pool.owner), orders, owner, tag, true,
                     ask.q.queues, ask.q.head[..], ask.q.tail[..]);
      TailInRange(orders, owner, tag, false, ask.q.queues, ask.q.head[..], ask.q.tail[..], i);
      ask.q.FreeChain(i, ask.q.head[..], ask.q.tail[..]);
      OtherSideStays(orders, owner, pool.orders[..], pool.owner, tag, false,
                     bid.q.queues, bid.q.head[..][i := NULL_IDX], bid.q.tail[..][i := NULL_IDX]);
      BookFrameChain(old(pool.orders[..]), old(pool.owner), orders, owner, pool.orders[..], pool.owner, tag);
      ReleaseConcat(old(pool.free), Slots(old(bid.q.queues)[i]), Slots(old(ask.q.queues)[i]));
      bid.q.ResetLevel(i);
      ask.q.ResetLevel(i);
    }

    /** Resets the arrays of a book that holds no order. */
    method Init()
      requires Valid() && Abs() == EmptyBook(levels)
      modifies Footprint()
      ensures Valid() && Abs() == EmptyBook(levels)
    {
      hide SideOk, FreelistOk, Fits, Volumes;
      for i := 0 to levels
        invariant Unfinished()
        invariant bid.q.queues == old(bid.q.queues) && bid.q.qty[..] == old(bid.q.qty[..])
        invariant ask.q.queues == old(ask.q.queues) && ask.q.qty[..] == old(ask.q.qty[..])
      {
        InitLevel(i);
      }
      bid.Reset();
      ask.Reset();
    }

    method InitLevel(i: uint32)
      requires Unfinished() && i < levels && bid.q.queues[i] == [] && ask.q.queues[i] == []
      modifies bid.q.head, bid.q.tail, bid.q.qty, ask.q.head, ask.q.tail, ask.q.qty
      ensures Unfinished()
      ensures bid.q.qty[..] == old(bid.q.qty[..])[i := 0] && ask.q.qty[..] == old(ask.q.qty[..])[i := 0]
    {
      hide SideOk, FreelistOk, Fits;
      TailInRange(pool.orders[..], pool.owner, tag, true, bid.q.queues, bid.q.head[..], bid.q.tail[..], i);
      TailInRange(pool.orders[..], pool.owner, tag, false, ask.q.queues, ask.q.head[..], ask.q.tail[..], i);
      bid.q.ResetLevel(i);
      ask.q.ResetLevel(i);
      assert bid.q.head[..] == old(bid.q.head[..]) && bid.q.tail[..] == old(bid.q.tail[..]);
      assert ask.q.head[..] == old(ask.q.head[..]) && ask.q.tail[..] == old(ask.q.tail[..]);
    }

    function GetBestBid(): (price: uint32)
      reads Footprint()
      ensures price == Abs().bid.best
    {
      bid.best
    }

    function GetBestAsk(): (price: uint32)
      reads Footprint()
      ensures price == Abs().ask.best
    {
      ask.best
    }

    /** Total bid volume at prices 0 to price. */
    method CumulativeBidVolume(price: uint32) returns (v: int64)
      requires Valid()
      ensures v == VolumeWithin(Abs().bid.queues, 0, price)
    {
      hide SideOk, FreelistOk, Fits;
      VolumesFit(pool.orders[..], pool.owner, tag, true, bid.q.queues, bid.q.head[..], bid.q.tail[..]);
      RangeIsWithin(bid.q.queues, 0, price);
      var total, _ := bid.bit.PrefixSum(price);
      v := total;
    }

    /** Total ask volume at prices 0 to price. */
    method CumulativeAskVolume(price: uint32) returns (v: int64)
      requires Valid()
      ensures v == VolumeWithin(Abs().ask.queues, 0, price)
    {
      hide SideOk, FreelistOk, Fits;
      VolumesFit(pool.orders[..], pool.owner, tag, false, ask.q.queues, ask.q.head[..], ask.q.tail[..]);
      RangeIsWithin(ask.q.queues, 0, price);
      var total, _ := ask.bit.PrefixSum(price);
      v := total;
    }

    /** Bid volume at prices low to high. */
    method BidVolumeRange(low: uint32, high: uint32) returns (v: int64)
      requires Valid()
      ensures v == VolumeWithin(Abs().bid.queues, low, high)
    {
      hide SideOk, FreelistOk, Fits;
      VolumesFit(pool.orders[..], pool.owner, tag, true, bid.q.queues, bid.q.head[..], bid.q.tail[..]);
      RangeIsWithin(bid.q.queues, low, high);
      v := bid.bit.RangeSum(low, high);
    }

    /** Ask volume at prices low to high. */
    method AskVolumeRange(low: uint32, high: uint32) returns (v: int64)
      requires Valid()
      ensures v == VolumeWithin(Abs().ask.queues, low, high)
    {
      hide SideOk, FreelistOk, Fits;
      VolumesFit(pool.orders[..], pool.owner, tag, false, ask.q.queues, ask.q.head[..], ask.q.tail[..]);
      RangeIsWithin(ask.q.queues, low, high);
      v := ask.bit.RangeSum(low, high);
    }

    /** Bid volume at prices from count below the best bid up to it; a best bid of 0 counts as none. */
    method BidDepth(count: uint32) returns (v: int64)
      requires Valid()
      ensures v == if Abs().bid.best == 0 then 0
                   else VolumeWithin(Abs().bid.queues, Abs().bid.best - count, Abs().bid.best)
    {
      if bid.best == 0 { return 0; }
      var low := if bid.best > count then bid.best - count else 0;
      v := BidVolumeRange(low, bid.best);
      if bid.best <= count { WithinFromZero(bid.q.queues, bid.best - count, bid.best); }
    }

    /**
     * Ask volume at prices from the best ask to count above it. The end of the range is a 32-bit sum: for a count
     * that makes it wrap, the range is reversed and the answer is 0.
     */
    method AskDepth(count: uint32) returns (v: int64)
      requires Valid()
      ensures v == AskDepthOf(Abs().ask, count)
    {
      hide SideOk, FreelistOk, Fits, VolumeWithin;
      if ask.best == INVALID_PRICE { return 0; }
      var end: uint32 := (ask.best + count) % TWO32;
      var high := if end < levels then end else levels - 1;
      v := AskVolumeRange(ask.best, high);
      if ask.best + count >= TWO32 {
        NothingWithin(ask.q.queues, ask.best, high);
      } else if end >= levels {
        WithinToEnd(ask.q.queues, ask.best, end);
      }
    }

    /** The difference of the best prices in 32-bit arithmetic, 0 when one is missing. */
    method Spread() returns (ticks: uint32)
      requires Valid()
      ensures ticks == SpreadOf(Abs())
    {
      if ask.best == INVALID_PRICE || bid.best == 0 { return 0; }
      ticks := (ask.best - bid.best) % TWO32;
    }
  }
}
