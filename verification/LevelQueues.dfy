/** How the intrusive queues of one side of one book lie in the shared order array. */
module QueueLinks {
  import opened Machine
  import opened Distinctness
  import opened Pool
  import opened BookSpec

  function PrevSlot(q: Queue, k: nat): (r: uint32)
    requires k < |q|
  {
    if k == 0 then NULL_IDX else q[k - 1].slot
  }

  function NextSlot(q: Queue, k: nat): (r: uint32)
    requires k < |q|
  {
    if k + 1 < |q| then q[k + 1].slot else NULL_IDX
  }

  function HeadSlot(q: Queue): (r: uint32) {
    if q == [] then NULL_IDX else q[0].slot
  }

  function TailSlot(q: Queue): (r: uint32) {
    if q == [] then NULL_IDX else q[|q| - 1].slot
  }

  /** The whole record of the order at position k of the queue at price p. */
  function Record(q: Queue, k: nat, isBid: bool, p: uint32): (o: Order)
    requires k < |q|
  {
    Order(q[k].id, q[k].qty, PrevSlot(q, k), NextSlot(q, k), p, isBid, true)
  }

  ghost predicate EntryOk(orders: seq<Order>, owner: seq<nat>, tag: nat, isBid: bool, p: uint32, q: Queue, k: nat)
    requires k < |q|
  {
    var s := q[k].slot;
    s < |orders| && s < |owner| && owner[s] == tag && orders[s] == Record(q, k, isBid, p)
  }

  ghost predicate QueueOk(orders: seq<Order>, owner: seq<nat>, tag: nat, isBid: bool, p: uint32, q: Queue) {
    && (forall k | 0 <= k < |q| :: EntryOk(orders, owner, tag, isBid, p, q, k))
    && (forall j, k | 0 <= j < k < |q| :: q[j].slot != q[k].slot)
  }

  predicate InQueue(q: Queue, s: uint32) {
    exists k :: 0 <= k < |q| && q[k].slot == s
  }

  /** Slot s holds a resting order of this side of this book. */
  ghost predicate Mine(orders: seq<Order>, owner: seq<nat>, tag: nat, isBid: bool, s: uint32)
    requires |orders| == |owner|
  {
    s < |orders| && orders[s].active && owner[s] == tag && orders[s].isBid == isBid
  }

  ghost predicate SideOk(orders: seq<Order>, owner: seq<nat>, tag: nat, isBid: bool,
                         queues: seq<Queue>, head: seq<uint32>, tail: seq<uint32>)
  {
    && |orders| == |owner| <= 0x8000_0000
    && |queues| == |head| == |tail| < 0x8000_0000
    && (forall p | 0 <= p < |queues| ::
          QueueOk(orders, owner, tag, isBid, p, queues[p]) &&
          head[p] == HeadSlot(queues[p]) && tail[p] == TailSlot(queues[p]))
    && (forall s: uint32 | Mine(orders, owner, tag, isBid, s) ::
          orders[s].price < |queues| && InQueue(queues[orders[s].price], s))
  }

  /** Slot s holds an order of this side of this book, or none. */
  ghost predicate MineOrFree(o: Order, w: nat, tag: nat, isBid: bool) {
    o.active ==> w == tag && o.isBid == isBid
  }

  /** A slot that held, or holds now, an order of anyone else is the same before and after. */
  ghost predicate SideFrame(o0: seq<Order>, w0: seq<nat>, o1: seq<Order>, w1: seq<nat>, tag: nat, isBid: bool) {
    && |o0| == |w0| == |o1| == |w1|
    && forall s | 0 <= s < |o0| :: (o1[s] == o0[s] && w1[s] == w0[s]) ||
         (MineOrFree(o0[s], w0[s], tag, isBid) && MineOrFree(o1[s], w1[s], tag, isBid))
  }

  /** A slot that held, or holds now, an order of another book is the same before and after. */
  ghost predicate BookFrame(o0: seq<Order>, w0: seq<nat>, o1: seq<Order>, w1: seq<nat>, tag: nat) {
    && |o0| == |w0| == |o1| == |w1|
    && forall s | 0 <= s < |o0| :: (o1[s] == o0[s] && w1[s] == w0[s]) ||
         ((o0[s].active ==> w0[s] == tag) && (o1[s].active ==> w1[s] == tag))
  }

  lemma SideFrameSame(o: seq<Order>, w: seq<nat>, tag: nat, isBid: bool)
    requires |o| == |w|
    ensures SideFrame(o, w, o, w, tag, isBid)
  {
  }

  lemma SideFrameChain(o0: seq<Order>, w0: seq<nat>, o1: seq<Order>, w1: seq<nat>, o2: seq<Order>, w2: seq<nat>,
                       tag: nat, isBid: bool)
    requires SideFrame(o0, w0, o1, w1, tag, isBid) && SideFrame(o1, w1, o2, w2, tag, isBid)
    ensures SideFrame(o0, w0, o2, w2, tag, isBid)
  {
  }

  lemma SideFrameIsBookFrame(o0: seq<Order>, w0: seq<nat>, o1: seq<Order>, w1: seq<nat>, tag: nat, isBid: bool)
    requires SideFrame(o0, w0, o1, w1, tag, isBid)
    ensures BookFrame(o0, w0, o1, w1, tag)
  {
  }

  /** A queue stands as long as its own orders do. */
  lemma QueueKept(o0: seq<Order>, w0: seq<nat>, o1: seq<Order>, w1: seq<nat>, tag: nat, isBid: bool, p: uint32,
                  q: Queue)
    requires |o0| == |w0| == |o1| == |w1| && QueueOk(o0, w0, tag, isBid, p, q)
    requires forall s: uint32 | Mine(o0, w0, tag, isBid, s) && o0[s].price == p :: o1[s] == o0[s] && w1[s] == w0[s]
    ensures QueueOk(o1, w1, tag, isBid, p, q)
  {
    forall k | 0 <= k < |q| ensures EntryOk(o1, w1, tag, isBid, p, q, k) {
      assert EntryOk(o0, w0, tag, isBid, p, q, k);
      assert Mine(o0, w0, tag, isBid, q[k].slot);
    }
  }

  lemma SideFrameKeepsOtherSide(o0: seq<Order>, w0: seq<nat>, o1: seq<Order>, w1: seq<nat>, tag: nat, isBid: bool,
                                queues: seq<Queue>, head: seq<uint32>, tail: seq<uint32>)
    requires SideFrame(o0, w0, o1, w1, tag, isBid) && SideOk(o0, w0, tag, !isBid, queues, head, tail)
    ensures SideOk(o1, w1, tag, !isBid, queues, head, tail)
  {
    var side := !isBid;
    forall p | 0 <= p < |queues| ensures QueueOk(o1, w1, tag, side, p, queues[p]) {
      QueueKept(o0, w0, o1, w1, tag, side, p, queues[p]);
    }
    forall s: uint32 | Mine(o1, w1, tag, side, s)
      ensures o1[s].price < |queues| && InQueue(queues[o1[s].price], s)
    {
      assert Mine(o0, w0, tag, side, s);
    }
  }

  lemma BookFrameKeepsOthers(o0: seq<Order>, w0: seq<nat>, o1: seq<Order>, w1: seq<nat>, tag: nat, other: nat,
                             isBid: bool, queues: seq<Queue>, head: seq<uint32>, tail: seq<uint32>)
    requires BookFrame(o0, w0, o1, w1, tag) && tag != other && SideOk(o0, w0, other, isBid, queues, head, tail)
    ensures SideOk(o1, w1, other, isBid, queues, head, tail)
  {
    forall p | 0 <= p < |queues| ensures QueueOk(o1, w1, other, isBid, p, queues[p]) {
      QueueKept(o0, w0, o1, w1, other, isBid, p, queues[p]);
    }
    forall s: uint32 | Mine(o1, w1, other, isBid, s)
      ensures o1[s].price < |queues| && InQueue(queues[o1[s].price], s)
    {
      assert Mine(o0, w0, other, isBid, s);
    }
  }

  // ---- appending an order ----

  /** The order array after a fresh slot was filled in and linked behind the tail at price p. */
  function Appended(orders: seq<Order>, tail: uint32, e: Entry, isBid: bool, p: uint32): (r: seq<Order>)
    requires e.slot < |orders| && (tail == NULL_IDX || tail < |orders|)
  {
    var filled := orders[e.slot := Order(e.id, e.qty, tail, NULL_IDX, p, isBid, true)];
    if tail == NULL_IDX then filled else filled[tail := filled[tail].(next := e.slot)]
  }

  lemma AppendedOver(orders: seq<Order>, tail: uint32, e: Entry, isBid: bool, p: uint32, o: Order)
    requires e.slot < |orders| && (tail == NULL_IDX || tail < |orders|) && tail != e.slot
    ensures Appended(orders[e.slot := o], tail, e, isBid, p) == Appended(orders, tail, e, isBid, p)
  {
  }

  lemma TailInRange(orders: seq<Order>, owner: seq<nat>, tag: nat, isBid: bool,
                    queues: seq<Queue>, head: seq<uint32>, tail: seq<uint32>, p: uint32)
    requires SideOk(orders, owner, tag, isBid, queues, head, tail) && p < |queues|
    ensures queues[p] == [] <==> tail[p] == NULL_IDX
    ensures queues[p] == [] <==> head[p] == NULL_IDX
    ensures queues[p] != [] ==>
      EntryOk(orders, owner, tag, isBid, p, queues[p], |queues[p]| - 1)
        && EntryOk(orders, owner, tag, isBid, p, queues[p], 0)
    ensures head[p] == HeadSlot(queues[p]) && tail[p] == TailSlot(queues[p])
    ensures queues[p] != [] ==> Mine(orders, owner, tag, isBid, queues[p][0].slot)
  {
    if queues[p] != [] {
      assert EntryOk(orders, owner, tag, isBid, p, queues[p], 0);
      assert EntryOk(orders, owner, tag, isBid, p, queues[p], |queues[p]| - 1);
    }
  }

  lemma AppendedQueue(orders: seq<Order>, owner: seq<nat>, tag: nat, isBid: bool, p: uint32, q: Queue, e: Entry)
    requires |orders| == |owner| && QueueOk(orders, owner, tag, isBid, p, q)
    requires e.slot < |orders| <= 0x8000_0000 && !orders[e.slot].active
    ensures TailSlot(q) == NULL_IDX || TailSlot(q) < |orders|
    ensures QueueOk(Appended(orders, TailSlot(q), e, isBid, p), owner[e.slot := tag], tag, isBid, p, q + [e])
  {
    var q' := q + [e];
    forall k | 0 <= k < |q| ensures q[k].slot != e.slot {
      assert EntryOk(orders, owner, tag, isBid, p, q, k);
    }
    if q != [] { assert EntryOk(orders, owner, tag, isBid, p, q, |q| - 1); }
    var orders' := Appended(orders, TailSlot(q), e, isBid, p);
    var owner' := owner[e.slot := tag];
    forall k | 0 <= k < |q'| ensures EntryOk(orders', owner', tag, isBid, p, q', k) {
      if k < |q| {
        assert EntryOk(orders, owner, tag, isBid, p, q, k);
        assert q'[k] == q[k];
      }
    }
  }

  lemma AppendKeepsSide(orders: seq<Order>, owner: seq<nat>, tag: nat, isBid: bool,
                        queues: seq<Queue>, head: seq<uint32>, tail: seq<uint32>, p: uint32, e: Entry)
    requires SideOk(orders, owner, tag, isBid, queues, head, tail) && p < |queues|
    requires e.slot < |orders| && !orders[e.slot].active
    ensures tail[p] == NULL_IDX || tail[p] < |orders|
    ensures var orders', owner' := Appended(orders, tail[p], e, isBid, p), owner[e.slot := tag];
      && SideOk(orders', owner', tag, isBid, queues[p := queues[p] + [e]],
                if tail[p] == NULL_IDX then head[p := e.slot] else head, tail[p := e.slot])
      && SideFrame(orders, owner, orders', owner', tag, isBid)
  {
    var q := queues[p];
    AppendedFrame(orders, owner, tag, isBid, p, q, e);
    var orders', owner' := Appended(orders, tail[p], e, isBid, p), owner[e.slot := tag];
    var queues' := queues[p := q + [e]];
    assert QueueOk(orders', owner', tag, isBid, p, q + [e]) by {
      AppendedQueue(orders, owner, tag, isBid, p, q, e);
    }
    assert q == [] <==> tail[p] == NULL_IDX by {
      TailInRange(orders, owner, tag, isBid, queues, head, tail, p);
    }
    forall t | 0 <= t < |queues| && t != p ensures QueueOk(orders', owner', tag, isBid, t, queues[t]) {
      QueueKept(orders, owner, orders', owner', tag, isBid, t, queues[t]);
    }
    forall s: uint32 | Mine(orders', owner', tag, isBid, s)
      ensures orders'[s].price < |queues| && InQueue(queues'[orders'[s].price], s)
    {
      InAppended(q, e, s);
    }
  }

  lemma AppendedFrame(orders: seq<Order>, owner: seq<nat>, tag: nat, isBid: bool, p: uint32, q: Queue, e: Entry)
    requires |orders| == |owner| <= 0x8000_0000 && QueueOk(orders, owner, tag, isBid, p, q)
    requires e.slot < |orders| && !orders[e.slot].active
    ensures TailSlot(q) == NULL_IDX || TailSlot(q) < |orders|
    ensures var orders', owner' := Appended(orders, TailSlot(q), e, isBid, p), owner[e.slot := tag];
      && (forall s: uint32 | Mine(orders, owner, tag, isBid, s) && orders[s].price != p ::
            orders'[s] == orders[s] && owner'[s] == owner[s])
      && (forall s: uint32 | Mine(orders', owner', tag, isBid, s) && s != e.slot ::
            Mine(orders, owner, tag, isBid, s) && orders'[s].price == orders[s].price)
      && orders'[e.slot].price == p
      && SideFrame(orders, owner, orders', owner', tag, isBid)
  {
    if q != [] { assert EntryOk(orders, owner, tag, isBid, p, q, |q| - 1); }
  }

  lemma InAppended(q: Queue, e: Entry, s: uint32)
    ensures InQueue(q, s) || s == e.slot ==> InQueue(q + [e], s)
  {
    if s == e.slot {
      assert (q + [e])[|q|].slot == s;
    } else if k :| 0 <= k < |q| && q[k].slot == s {
      assert (q + [e])[k].slot == s;
    }
  }

  // ---- removing an order ----

  predicate LinksInRange(orders: seq<Order>, s: uint32) {
    && s < |orders|
    && (orders[s].prev == NULL_IDX || orders[s].prev < |orders|)
    && (orders[s].next == NULL_IDX || orders[s].next < |orders|)
  }

  /** The order array after the neighbours of slot s were linked to each other. */
  function Detached(orders: seq<Order>, s: uint32): (r: seq<Order>)
    requires LinksInRange(orders, s)
    ensures |r| == |orders|
  {
    var prev, next := orders[s].prev, orders[s].next;
    var a := if prev == NULL_IDX then orders else orders[prev := orders[prev].(next := next)];
    if next == NULL_IDX then a else a[next := a[next].(prev := prev)]
  }

  /** The order array after slot s was unlinked from its neighbours and put on the freelist. */
  function Unlinked(orders: seq<Order>, s: uint32, freeHead: uint32): (r: seq<Order>)
    requires LinksInRange(orders, s)
  {
    var b := Detached(orders, s);
    b[s := b[s].(active := false, next := freeHead)]
  }

  lemma NeighboursOk(orders: seq<Order>, owner: seq<nat>, tag: nat, isBid: bool, p: uint32, q: Queue, k: nat)
    requires |orders| == |owner| <= 0x8000_0000 && QueueOk(orders, owner, tag, isBid, p, q) && k < |q|
    ensures EntryOk(orders, owner, tag, isBid, p, q, k)
    ensures k == 0 <==> orders[q[k].slot].prev == NULL_IDX
    ensures k + 1 == |q| <==> orders[q[k].slot].next == NULL_IDX
    ensures k > 0 ==>
      EntryOk(orders, owner, tag, isBid, p, q, k - 1) && q[k - 1].slot == orders[q[k].slot].prev != q[k].slot
    ensures k + 1 < |q| ==>
      EntryOk(orders, owner, tag, isBid, p, q, k + 1) && q[k + 1].slot == orders[q[k].slot].next != q[k].slot
    ensures 0 < k < |q| - 1 ==> q[k - 1].slot != q[k + 1].slot
  {
    assert EntryOk(orders, owner, tag, isBid, p, q, k);
    if k > 0 { assert EntryOk(orders, owner, tag, isBid, p, q, k - 1); }
    if k + 1 < |q| { assert EntryOk(orders, owner, tag, isBid, p, q, k + 1); }
  }

  lemma FindSlot(orders: seq<Order>, owner: seq<nat>, tag: nat, isBid: bool,
                 queues: seq<Queue>, head: seq<uint32>, tail: seq<uint32>, s: uint32) returns (k: nat)
    requires SideOk(orders, owner, tag, isBid, queues, head, tail) && Mine(orders, owner, tag, isBid, s)
    ensures orders[s].price < |queues| && k < |queues[orders[s].price]| && queues[orders[s].price][k].slot == s
    ensures forall j | 0 <= j < |queues[orders[s].price]| && queues[orders[s].price][j].slot == s :: j == k
  {
    k :| 0 <= k < |queues[orders[s].price]| && queues[orders[s].price][k].slot == s;
  }

  lemma SideNeighbours(orders: seq<Order>, owner: seq<nat>, tag: nat, isBid: bool,
                       queues: seq<Queue>, head: seq<uint32>, tail: seq<uint32>, p: uint32, k: nat)
    requires SideOk(orders, owner, tag, isBid, queues, head, tail) && p < |queues| && k < |queues[p]|
    ensures var q, s := queues[p], queues[p][k].slot;
      && EntryOk(orders, owner, tag, isBid, p, q, k)
      && LinksInRange(orders, s)
      && (orders[s].prev != NULL_IDX ==> orders[s].prev != s && orders[orders[s].prev].active)
      && (orders[s].next != NULL_IDX ==> orders[s].next != s && orders[orders[s].next].active)
  {
    NeighboursOk(orders, owner, tag, isBid, p, queues[p], k);
  }

  /** Each order after the unlinking: s is released, its neighbours have new links, the rest is untouched. */
  lemma UnlinkedAt(orders: seq<Order>, s: uint32, freeHead: uint32)
    requires |orders| <= 0x8000_0000 && LinksInRange(orders, s)
    requires orders[s].prev != s && orders[s].next != s
    ensures var o, after := orders[s], Unlinked(orders, s, freeHead);
      && |after| == |orders| && after[s] == o.(active := false, next := freeHead)
      && forall u | 0 <= u < |orders| && u != s ::
           after[u] == orders[u].(next := if u == o.prev then o.next else orders[u].next,
                                  prev := if u == o.next then o.prev else orders[u].prev)
  {
  }

  lemma UnlinkedQueue(orders: seq<Order>, owner: seq<nat>, tag: nat, isBid: bool, p: uint32, q: Queue, k: nat,
                      freeHead: uint32)
    requires |orders| == |owner| <= 0x8000_0000 && QueueOk(orders, owner, tag, isBid, p, q) && k < |q|
    ensures var s := q[k].slot;
      && EntryOk(orders, owner, tag, isBid, p, q, k)
      && LinksInRange(orders, s)
      && QueueOk(Unlinked(orders, s, freeHead), owner, tag, isBid, p, Without(q, k))
  {
    hide Unlinked;
    NeighboursOk(orders, owner, tag, isBid, p, q, k);
    UnlinkedAt(orders, q[k].slot, freeHead);
    var q' := Without(q, k);
    var orders' := Unlinked(orders, q[k].slot, freeHead);
    forall i | 0 <= i < |q'| ensures EntryOk(orders', owner, tag, isBid, p, q', i) {
      var j := if i < k then i else i + 1;
      assert q'[i] == q[j];
      assert EntryOk(orders, owner, tag, isBid, p, q, j);
      assert q[j].slot != q[k].slot;
      assert k > 0 ==> (q[j].slot == q[k - 1].slot <==> j == k - 1);
      assert k + 1 < |q| ==> (q[j].slot == q[k + 1].slot <==> j == k + 1);
    }
  }

  /** Unlinking changes only orders of the same queue, and of those only links, save that s is released. */
  lemma UnlinkedEffect(orders: seq<Order>, owner: seq<nat>, tag: nat, isBid: bool, p: uint32, q: Queue, k: nat,
                       freeHead: uint32)
    requires |orders| == |owner| <= 0x8000_0000 && QueueOk(orders, owner, tag, isBid, p, q) && k < |q|
    ensures EntryOk(orders, owner, tag, isBid, p, q, k)
    ensures var s := q[k].slot;
      && LinksInRange(orders, s)
      && var orders' := Unlinked(orders, s, freeHead);
         && |orders'| == |orders| && !orders'[s].active
         && (forall u: uint32 | u < |orders| && !(Mine(orders, owner, tag, isBid, u) && orders[u].price == p) ::
               orders'[u] == orders[u])
         && (forall u: uint32 | u < |orders| && u != s :: orders'[u].active == orders[u].active &&
               orders'[u].price == orders[u].price && orders'[u].isBid == orders[u].isBid)
  {
    hide Unlinked;
    NeighboursOk(orders, owner, tag, isBid, p, q, k);
    UnlinkedAt(orders, q[k].slot, freeHead);
  }

  lemma WithoutEnds(q: Queue, k: nat)
    requires k < |q|
    ensures HeadSlot(Without(q, k)) == if k == 0 then NextSlot(q, k) else HeadSlot(q)
    ensures TailSlot(Without(q, k)) == if k + 1 == |q| then PrevSlot(q, k) else TailSlot(q)
  {
  }

  lemma InWithout(q: Queue, k: nat, u: uint32)
    requires k < |q| && InQueue(q, u) && u != q[k].slot
    ensures InQueue(Without(q, k), u)
  {
    var i :| 0 <= i < |q| && q[i].slot == u;
    assert Without(q, k)[if i < k then i else i - 1].slot == u;
  }

  lemma RemoveKeepsSide(orders: seq<Order>, owner: seq<nat>, tag: nat, isBid: bool,
                        queues: seq<Queue>, head: seq<uint32>, tail: seq<uint32>, p: uint32, k: nat, freeHead: uint32)
    requires SideOk(orders, owner, tag, isBid, queues, head, tail) && p < |queues| && k < |queues[p]|
    ensures EntryOk(orders, owner, tag, isBid, p, queues[p], k)
    ensures var s := queues[p][k].slot;
      && LinksInRange(orders, s)
      && var orders' := Unlinked(orders, s, freeHead);
         && SideOk(orders', owner, tag, isBid, queues[p := Without(queues[p], k)],
                   if orders[s].prev == NULL_IDX then head[p := orders[s].next] else head,
                   if orders[s].next == NULL_IDX then tail[p := orders[s].prev] else tail)
         && SideFrame(orders, owner, orders', owner, tag, isBid)
  {
    var q, s := queues[p], queues[p][k].slot;
    hide Unlinked;
    UnlinkedEffect(orders, owner, tag, isBid, p, q, k, freeHead);
    UnlinkedQueue(orders, owner, tag, isBid, p, q, k, freeHead);
    assert HeadSlot(Without(q, k)) == (if orders[s].prev == NULL_IDX then orders[s].next else head[p])
        && TailSlot(Without(q, k)) == (if orders[s].next == NULL_IDX then orders[s].prev else tail[p]) by {
      NeighboursOk(orders, owner, tag, isBid, p, q, k);
      WithoutEnds(q, k);
    }
    RemoveKeepsRest(orders, Unlinked(orders, s, freeHead), owner, tag, isBid, queues, head, tail, p, k,
      if orders[s].prev == NULL_IDX then head[p := orders[s].next] else head,
      if orders[s].next == NULL_IDX then tail[p := orders[s].prev] else tail);
  }

  lemma RemoveKeepsRest(orders: seq<Order>, orders': seq<Order>, owner: seq<nat>, tag: nat, isBid: bool,
                        queues: seq<Queue>, head: seq<uint32>, tail: seq<uint32>, p: uint32, k: nat,
                        head': seq<uint32>, tail': seq<uint32>)
    requires SideOk(orders, owner, tag, isBid, queues, head, tail) && p < |queues| && k < |queues[p]|
    requires QueueOk(orders', owner, tag, isBid, p, Without(queues[p], k))
    requires head' == head[p := HeadSlot(Without(queues[p], k))] && tail' == tail[p := TailSlot(Without(queues[p], k))]
    requires queues[p][k].slot < |orders'| == |orders| && !orders'[queues[p][k].slot].active
    requires forall u: uint32 | u < |orders| && !(Mine(orders, owner, tag, isBid, u) && orders[u].price == p) ::
               orders'[u] == orders[u]
    requires forall u: uint32 | u < |orders| && u != queues[p][k].slot :: orders'[u].active == orders[u].active &&
               orders'[u].price == orders[u].price && orders'[u].isBid == orders[u].isBid
    ensures SideOk(orders', owner, tag, isBid, queues[p := Without(queues[p], k)], head', tail')
    ensures SideFrame(orders, owner, orders', owner, tag, isBid)
  {
    forall t | 0 <= t < |queues| && t != p ensures QueueOk(orders', owner, tag, isBid, t, queues[t]) {
      QueueKept(orders, owner, orders', owner, tag, isBid, t, queues[t]);
    }
    forall u: uint32 | Mine(orders', owner, tag, isBid, u)
      ensures orders'[u].price < |queues| && InQueue(queues[p := Without(queues[p], k)][orders'[u].price], u)
    {
      assert Mine(orders, owner, tag, isBid, u);
      if orders[u].price == p { InWithout(queues[p], k, u); }
    }
  }

  // ---- reducing an order in place ----

  lemma ShrinkKeepsSide(orders: seq<Order>, owner: seq<nat>, tag: nat, isBid: bool,
                        queues: seq<Queue>, head: seq<uint32>, tail: seq<uint32>, p: uint32, qty: uint32)
    requires SideOk(orders, owner, tag, isBid, queues, head, tail) && p < |queues| && queues[p] != []
    ensures EntryOk(orders, owner, tag, isBid, p, queues[p], 0)
    ensures var e := queues[p][0];
      var orders' := orders[e.slot := orders[e.slot].(qty := qty)];
      && SideOk(orders', owner, tag, isBid, queues[p := [e.(qty := qty)] + queues[p][1..]], head, tail)
      && SideFrame(orders, owner, orders', owner, tag, isBid)
  {
    var q, e := queues[p], queues[p][0];
    assert EntryOk(orders, owner, tag, isBid, p, q, 0);
    var orders' := orders[e.slot := orders[e.slot].(qty := qty)];
    var q' := [e.(qty := qty)] + q[1..];
    assert forall k | 0 < k < |q| :: q'[k] == q[k];
    forall k | 0 <= k < |q| ensures EntryOk(orders', owner, tag, isBid, p, q', k) {
      assert EntryOk(orders, owner, tag, isBid, p, q, k);
      assert NextSlot(q', k) == NextSlot(q, k) && PrevSlot(q', k) == PrevSlot(q, k);
    }
    assert q'[|q| - 1].slot == q[|q| - 1].slot;
    forall t | 0 <= t < |queues| && t != p ensures QueueOk(orders', owner, tag, isBid, t, queues[t]) {
      QueueKept(orders, owner, orders', owner, tag, isBid, t, queues[t]);
    }
    var queues' := queues[p := q'];
    forall u: uint32 | Mine(orders', owner, tag, isBid, u)
      ensures orders'[u].price < |queues| && InQueue(queues'[orders'[u].price], u)
    {
      assert Mine(orders, owner, tag, isBid, u);
      var t := orders[u].price;
      var i :| 0 <= i < |queues[t]| && queues[t][i].slot == u;
      assert queues'[t][i].slot == u;
    }
  }

  // ---- freeing a whole queue ----

  /** The order array when the first j orders of a queue have been released. */
  ghost predicate Drained(o0: seq<Order>, o1: seq<Order>, q: Queue, j: nat)
    requires j <= |q|
  {
    && |o1| == |o0|
    && (forall i | 0 <= i < j :: q[i].slot < |o1| && !o1[q[i].slot].active)
    && (forall s: uint32 | s < |o0| && !InQueue(q[..j], s) :: o1[s] == o0[s])
  }

  lemma ChainFacts(orders: seq<Order>, owner: seq<nat>, tag: nat, isBid: bool,
                   queues: seq<Queue>, head: seq<uint32>, tail: seq<uint32>, p: uint32)
    requires SideOk(orders, owner, tag, isBid, queues, head, tail) && p < |queues|
    ensures |tail| == |queues| && |orders| == |owner|
    ensures QueueOk(orders, owner, tag, isBid, p, queues[p]) && head[p] == HeadSlot(queues[p])
    ensures forall k | 0 <= k < |queues[p]| :: queues[p][k].slot < NULL_IDX
    ensures Drained(orders, orders, queues[p], 0)
  {
    forall k | 0 <= k < |queues[p]| ensures queues[p][k].slot < NULL_IDX {
      assert EntryOk(orders, owner, tag, isBid, p, queues[p], k);
    }
  }

  lemma DrainedNext(o0: seq<Order>, owner: seq<nat>, tag: nat, isBid: bool, p: uint32,
                    o1: seq<Order>, q: Queue, j: nat, freeHead: uint32)
    requires |o0| == |owner| && QueueOk(o0, owner, tag, isBid, p, q) && j < |q|
    requires Drained(o0, o1, q, j)
    ensures var s := q[j].slot; s < |o1| == |o0| && o1[s] == Record(q, j, isBid, p)
    ensures Drained(o0, o1[q[j].slot := o1[q[j].slot].(active := false, next := freeHead)], q, j + 1)
  {
    assert EntryOk(o0, owner, tag, isBid, p, q, j);
    forall s: uint32 | InQueue(q[..j], s) ensures InQueue(q[..j + 1], s) && s != q[j].slot {
      var i :| 0 <= i < j && q[..j][i].slot == s;
      assert q[..j + 1][i].slot == s && q[i].slot == s;
    }
    assert InQueue(q[..j + 1], q[j].slot) by { assert q[..j + 1][j].slot == q[j].slot; }
  }

  lemma DrainKeepsSide(o0: seq<Order>, o1: seq<Order>, owner: seq<nat>, tag: nat, isBid: bool,
                       queues: seq<Queue>, head: seq<uint32>, tail: seq<uint32>, p: uint32)
    requires SideOk(o0, owner, tag, isBid, queues, head, tail) && p < |queues|
    requires Drained(o0, o1, queues[p], |queues[p]|)
    ensures SideOk(o1, owner, tag, isBid, queues[p := []], head[p := NULL_IDX], tail[p := NULL_IDX])
    ensures SideFrame(o0, owner, o1, owner, tag, isBid)
  {
    var q := queues[p];
    assert q[..|q|] == q;
    forall s: uint32 | InQueue(q, s)
      ensures s < |o0| && Mine(o0, owner, tag, isBid, s) && o0[s].price == p && !o1[s].active
    {
      var i :| 0 <= i < |q| && q[i].slot == s;
      assert EntryOk(o0, owner, tag, isBid, p, q, i);
    }
    forall t | 0 <= t < |queues| && t != p ensures QueueOk(o1, owner, tag, isBid, t, queues[t]) {
      QueueKept(o0, owner, o1, owner, tag, isBid, t, queues[t]);
    }
    forall s: uint32 | Mine(o1, owner, tag, isBid, s)
      ensures o1[s].price < |queues| && InQueue(queues[p := []][o1[s].price], s)
    {
      assert !InQueue(q, s);
      assert Mine(o0, owner, tag, isBid, s);
    }
    forall s: uint32 | s < |o0| ensures o1[s] == o0[s] ||
        (MineOrFree(o0[s], owner[s], tag, isBid) && MineOrFree(o1[s], owner[s], tag, isBid))
    {
      if InQueue(q, s) { assert Mine(o0, owner, tag, isBid, s); }
    }
  }
}

/** The head, tail and total arrays of one side of one book; both kinds of book keep these the same way. */
module Levels {
  import opened Machine
  import opened Distinctness
  import opened Pool
  import opened BookSpec
  import opened QueueLinks

  class LevelQueues {
    const pool: OrderPool
    const isBid: bool
    const levels: uint32
    const head: array<uint32>
    const tail: array<uint32>
    const qty: array<uint32>

    /** The name of the book towards the pool, and the queues in arrival order. */
    ghost const tag: nat
    ghost var queues: seq<Queue>

    ghost function Footprint(): set<object> {
      {this, head, tail, qty}
    }

    ghost predicate Own()
      reads this, head, tail, qty
    {
      && 1 <= levels < 0x8000_0000
      && head.Length == tail.Length == qty.Length == |queues| == levels
      && head != tail && head != qty && tail != qty
    }

    ghost predicate Linked()
      reads this, head, tail, pool, pool.orders
    {
      SideOk(pool.orders[..], pool.owner, tag, isBid, queues, head[..], tail[..])
    }

    ghost predicate Valid()
      reads this, head, tail, qty, pool, pool.orders
    {
      Own() && pool.Valid() && Linked()
    }

    /** A new side for a book that owns nothing in the pool yet. */
    constructor (orderPool: OrderPool, bidSide: bool, size: uint32, ghost book: nat)
      requires orderPool.Valid() && 1 <= size < 0x8000_0000
      requires forall s: uint32 | s < orderPool.capacity :: orderPool.orders[s].active ==> orderPool.owner[s] != book
      ensures Valid() && pool == orderPool && isBid == bidSide && levels == size && tag == book
      ensures queues == EmptySide(isBid, levels).queues && qty[..] == EmptySide(isBid, levels).level
      ensures fresh(head) && fresh(tail) && fresh(qty)
    {
      hide FreelistOk;
      pool, isBid, levels, tag := orderPool, bidSide, size, book;
      head := new uint32[size](_ => NULL_IDX);
      tail := new uint32[size](_ => NULL_IDX);
      qty := new uint32[size](_ => 0);
      queues := seq(size, _ => []);
    }

    /** Puts a new order behind the queue at a price; NULL_IDX when the pool is exhausted. */
    method Append(price: uint32, orderId: uint64, quantity: uint32) returns (idx: uint32)
      requires Valid() && price < levels
      modifies Footprint(), pool.Footprint()
      ensures Valid()
      ensures old(pool.free) == [] ==>
        && idx == NULL_IDX && pool.free == [] && queues == old(queues) && qty[..] == old(qty[..])
      ensures old(pool.free) != [] ==>
        && idx == old(pool.free)[0] && pool.free == old(pool.free)[1..]
        && queues == old(queues)[price := old(queues)[price] + [Entry(idx, orderId, quantity)]]
        && qty[..] == old(qty[..])[price := (old(qty[price]) + quantity) % TWO32]
      ensures SideFrame(old(pool.orders[..]), old(pool.owner), pool.orders[..], pool.owner, tag, isBid)
    {
      hide SideOk, SideFrame, FreelistOk, QueueOk, Appended;
      SideFrameSame(pool.orders[..], pool.owner, tag, isBid);
      idx := pool.Alloc(tag);
      if idx == NULL_IDX { return; }
      ghost var e := Entry(idx, orderId, quantity);
      AppendKeepsSide(old(pool.orders[..]), old(pool.owner), tag, isBid, queues, head[..], tail[..], price, e);
      TailInRange(old(pool.orders[..]), old(pool.owner), tag, isBid, queues, head[..], tail[..], price);
      ghost var last := tail[price];
      Attach(idx, price, orderId, quantity);
      AppendedOver(old(pool.orders[..]), last, e, isBid, price,
        old(pool.orders[idx]).(active := true, prev := NULL_IDX, next := NULL_IDX));
      qty[price] := (qty[price] + quantity) % TWO32;
      queues := queues[price := queues[price] + [e]];
    }

    /** Fills a fresh slot in and links it behind the tail at a price. */
    method Attach(idx: uint32, price: uint32, orderId: uint64, quantity: uint32)
      requires Own() && pool.Valid() && price < levels && idx < pool.capacity && pool.orders[idx].active
      requires tail[price] != NULL_IDX ==>
        tail[price] < pool.capacity && tail[price] != idx && pool.orders[tail[price]].active
      modifies head, tail, pool.orders
      ensures Own() && pool.Valid()
      ensures pool.orders[..] ==
        Appended(old(pool.orders[..]), old(tail[price]), Entry(idx, orderId, quantity), isBid, price)
      ensures head[..] == (if old(tail[price]) == NULL_IDX then old(head[..])[price := idx] else old(head[..]))
      ensures tail[..] == old(tail[..])[price := idx]
    {
      hide FreelistOk;
      var last := tail[price];
      pool.Put(idx, pool.orders[idx].(orderId := orderId, qty := quantity, price := price, isBid := isBid,
                                      prev := last, next := NULL_IDX));
      if last != NULL_IDX {
        pool.Put(last, pool.orders[last].(next := idx));
      } else {
        head[price] := idx;
      }
      tail[price] := idx;
    }

    /** Takes an order of this side out of its queue and frees its slot. */
    method Unlink(idx: uint32) returns (ghost k: nat)
      requires Valid() && Mine(pool.orders[..], pool.owner, tag, isBid, idx)
      modifies Footprint(), pool.Footprint()
      ensures Valid()
      ensures var price := old(pool.orders[idx].price);
        && price < levels && k < |old(queues)[price]| && old(queues)[price][k].slot == idx
        && (forall j | 0 <= j < |old(queues)[price]| && old(queues)[price][j].slot == idx :: j == k)
        && queues == old(queues)[price := Without(old(queues)[price], k)]
        && qty[..] == old(qty[..])[price := if old(qty[price]) >= old(queues)[price][k].qty
                                            then old(qty[price]) - old(queues)[price][k].qty else 0]
        && old(queues)[price][k].qty == old(pool.orders[idx].qty)
      ensures pool.free == [idx] + old(pool.free)
      ensures SideFrame(old(pool.orders[..]), old(pool.owner), pool.orders[..], pool.owner, tag, isBid)
    {
      hide SideOk, SideFrame, FreelistOk, QueueOk, Detached;
      var o := pool.orders[idx];
      var price := o.price;
      ghost var before := pool.orders[..];
      k := FindSlot(before, pool.owner, tag, isBid, queues, head[..], tail[..], idx);
      RemoveKeepsSide(before, pool.owner, tag, isBid, queues, head[..], tail[..], price, k, pool.freeHead);
      SideNeighbours(before, pool.owner, tag, isBid, queues, head[..], tail[..], price, k);
      if qty[price] >= o.qty {
        qty[price] := qty[price] - o.qty;
      } else {
        qty[price] := 0;
      }
      Detach(idx);
      pool.Free(idx);
      queues := queues[price := Without(queues[price], k)];
    }

    /** Links the neighbours of an order to each other, or moves the end of the queue it was at. */
    method Detach(idx: uint32)
      requires Own() && pool.Valid() && idx < pool.capacity && LinksInRange(pool.orders[..], idx)
      requires var o := pool.orders[idx];
        && o.active && o.price < levels
        && (o.prev != NULL_IDX ==> o.prev != idx && pool.orders[o.prev].active)
        && (o.next != NULL_IDX ==> o.next != idx && pool.orders[o.next].active)
      modifies head, tail, pool.orders
      ensures Own() && pool.Valid() && pool.orders[..] == Detached(old(pool.orders[..]), idx)
      ensures pool.orders[idx] == old(pool.orders[idx])
      ensures var o := old(pool.orders[idx]);
        && head[..] == (if o.prev == NULL_IDX then old(head[..])[o.price := o.next] else old(head[..]))
        && tail[..] == (if o.next == NULL_IDX then old(tail[..])[o.price := o.prev] else old(tail[..]))
    {
      hide FreelistOk;
      var o := pool.orders[idx];
      if o.prev != NULL_IDX {
        pool.Put(o.prev, pool.orders[o.prev].(next := o.next));
      } else {
        head[o.price] := o.next;
      }
      if o.next != NULL_IDX {
        pool.Put(o.next, pool.orders[o.next].(prev := o.prev));
      } else {
        tail[o.price] := o.prev;
      }
    }

    /** Takes part of the quantity of the order at the head of the queue at a price. */
    method Shrink(price: uint32, quantity: uint32)
      requires Valid() && price < levels && queues[price] != [] && quantity < queues[price][0].qty
      modifies Footprint(), pool.Footprint()
      ensures Valid() && pool.free == old(pool.free)
      ensures var q := old(queues)[price];
        && queues == old(queues)[price := [q[0].(qty := q[0].qty - quantity)] + q[1..]]
        && qty[..] == old(qty[..])[price := (old(qty[price]) - quantity) % TWO32]
      ensures SideFrame(old(pool.orders[..]), old(pool.owner), pool.orders[..], pool.owner, tag, isBid)
    {
      hide SideOk, SideFrame, FreelistOk, QueueOk;
      var idx := head[price];
      ghost var q := queues[price];
      TailInRange(pool.orders[..], pool.owner, tag, isBid, queues, head[..], tail[..], price);
      ShrinkKeepsSide(pool.orders[..], pool.owner, tag, isBid, queues, head[..], tail[..], price, q[0].qty - quantity);
      pool.Put(idx, pool.orders[idx].(qty := pool.orders[idx].qty - quantity));
      qty[price] := (qty[price] - quantity) % TWO32;
      queues := queues[price := [q[0].(qty := q[0].qty - quantity)] + q[1..]];
    }

    /**
     * Frees the queue at a price slot by slot, leaving the arrays as they are: hs and ts are what head
     * and tail stand for, which a caller resets later.
     */
    method FreeChain(price: uint32, ghost hs: seq<uint32>, ghost ts: seq<uint32>)
      requires Own() && pool.Valid() && price < levels && |hs| == levels && head[price] == hs[price]
      requires SideOk(pool.orders[..], pool.owner, tag, isBid, queues, hs, ts)
      modifies this`queues, pool.Footprint()
      ensures Own() && pool.Valid() && queues == old(queues)[price := []]
      ensures |ts| == levels
      ensures SideOk(pool.orders[..], pool.owner, tag, isBid, queues, hs[price := NULL_IDX], ts[price := NULL_IDX])
      ensures pool.free == Release(old(pool.free), Slots(old(queues)[price]))
      ensures SideFrame(old(pool.orders[..]), old(pool.owner), pool.orders[..], pool.owner, tag, isBid)
    {
      hide SideOk, QueueOk, SideFrame, FreelistOk, Drained;
      ghost var q := queues[price];
      ghost var j := 0;
      ChainFacts(pool.orders[..], pool.owner, tag, isBid, queues, hs, ts, price);
      var idx := head[price];
      assert q[..0] == [];
      while idx != NULL_IDX
        invariant pool.Valid() && pool.owner == old(pool.owner) && queues == old(queues)
        invariant 0 <= j <= |q| && idx == (if j < |q| then q[j].slot else NULL_IDX)
        invariant Drained(old(pool.orders[..]), pool.orders[..], q, j)
        invariant pool.free == Release(old(pool.free), Slots(q[..j]))
        decreases |q| - j
      {
        DrainedNext(old(pool.orders[..]), pool.owner, tag, isBid, price, pool.orders[..], q, j, pool.freeHead);
        var next := pool.orders[idx].next;
        pool.Free(idx);
        assert Slots(q[..j + 1]) == Slots(q[..j]) + [idx];
        ReleaseConcat(old(pool.free), Slots(q[..j]), [idx]);
        j := j + 1;
        idx := next;
      }
      assert q[..j] == q;
      DrainKeepsSide(old(pool.orders[..]), pool.orders[..], pool.owner, tag, isBid, queues, hs, ts, price);
      queues := queues[price := []];
    }

    method ResetLevel(price: uint32)
      requires Own() && price < levels
      modifies head, tail, qty
      ensures Own()
      ensures head[..] == old(head[..])[price := NULL_IDX] && tail[..] == old(tail[..])[price := NULL_IDX]
      ensures qty[..] == old(qty[..])[price := 0]
    {
      head[price] := NULL_IDX;
      tail[price] := NULL_IDX;
      qty[price] := 0;
    }
  }
}
