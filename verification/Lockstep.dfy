/** The scanning book and the tree book, each on a pool of its own, taken through the same operations. */
module Lockstep {
  import opened Machine
  import opened Pool
  import opened BookSpec
  import opened BookTheorems
  import opened QueueLinks
  import opened ScanBook
  import opened BitBook

  /** No other book uses the pool. */
  ghost predicate Exclusive(orders: seq<Order>, owner: seq<nat>, tag: nat) {
    |orders| == |owner| && forall s | 0 <= s < |orders| :: orders[s].active ==> owner[s] == tag
  }

  lemma StaysExclusive(o0: seq<Order>, w0: seq<nat>, o1: seq<Order>, w1: seq<nat>, tag: nat)
    requires Exclusive(o0, w0, tag) && BookFrame(o0, w0, o1, w1, tag)
    ensures Exclusive(o1, w1, tag)
  {
  }

  /** Handles are null or within the pool. */
  predicate HandleOk(op: Op, capacity: uint32) {
    op.Dequeue? ==> op.slot == NULL_IDX || op.slot < capacity
  }

  method OnScan(b: MBOBook, op: Op, ghost mine: set<object>) returns (o: Outcome)
    requires ScanReady(b, mine) && HandleOk(op, b.pool.capacity) && BookShaped(b.State().book)
    modifies mine
    ensures ScanReady(b, mine) && (b.State(), o) == Step(Scan, old(b.State()), op)
  {
    assert b.pool.Valid();
    hide BookFrame, Step, Exclusive, FreelistOk, MBOBook.Valid, MBOBook.Abs, MBOBook.Footprint;
    match op {
      case Enqueue(isBid, price, id, qty) =>
        var idx;
        if isBid { idx := b.EnqueueBid(price, id, qty); } else { idx := b.EnqueueAsk(price, id, qty); }
        o := Handle(idx);
      case Dequeue(slot) =>
        ExclusiveHandle(b.pool.orders[..], b.pool.owner, b.tag, slot);
        b.Dequeue(slot);
        o := Done;
      case Trade(isBid, price, qty) =>
        var filled;
        if isBid { filled := b.TradeBid(price, qty); } else { filled := b.TradeAsk(price, qty); }
        o := Filled(filled);
      case Clear =>
        b.Clear();
        o := Done;
    }
    StaysExclusive(old(b.pool.orders[..]), old(b.pool.owner), b.pool.orders[..], b.pool.owner, b.tag);
  }

  method OnTree(b: MBOBookWithBIT, op: Op, ghost mine: set<object>) returns (o: Outcome)
    requires TreeReady(b, mine) && HandleOk(op, b.pool.capacity) && BookShaped(b.State().book)
    modifies mine
    ensures TreeReady(b, mine) && (b.State(), o) == Step(Lifting, old(b.State()), op)
  {
    assert b.pool.Valid();
    hide BookFrame, Step, Exclusive, FreelistOk, MBOBookWithBIT.Valid, MBOBookWithBIT.Abs, MBOBookWithBIT.Footprint;
    match op {
      case Enqueue(isBid, price, id, qty) =>
        var idx;
        if isBid { idx := b.EnqueueBid(price, id, qty); } else { idx := b.EnqueueAsk(price, id, qty); }
        o := Handle(idx);
      case Dequeue(slot) =>
        ExclusiveHandle(b.pool.orders[..], b.pool.owner, b.tag, slot);
        b.Dequeue(slot);
        o := Done;
      case Trade(isBid, price, qty) =>
        var filled;
        if isBid { filled := b.TradeBid(price, qty); } else { filled := b.TradeAsk(price, qty); }
        o := Filled(filled);
      case Clear =>
        b.Clear();
        o := Done;
    }
    StaysExclusive(old(b.pool.orders[..]), old(b.pool.owner), b.pool.orders[..], b.pool.owner, b.tag);
  }

  lemma ExclusiveHandle(orders: seq<Order>, owner: seq<nat>, tag: nat, slot: uint32)
    requires Exclusive(orders, owner, tag)
    ensures |orders| == |owner| && (slot < |orders| && orders[slot].active ==> owner[slot] == tag)
  {
  }

  ghost predicate ScanReady(b: MBOBook, mine: set<object>)
    reads mine
  {
    && b.Wired() && b.Footprint() + b.pool.Footprint() == mine
    && b.Valid() && Exclusive(b.pool.orders[..], b.pool.owner, b.tag)
  }

  ghost predicate TreeReady(b: MBOBookWithBIT, mine: set<object>)
    reads mine
  {
    && b.Wired() && b.Footprint() + b.pool.Footprint() == mine
    && b.Valid() && Exclusive(b.pool.orders[..], b.pool.owner, b.tag)
  }

  /** Both books in order, in memory of their own, and in the same state. */
  ghost predicate Together(simple: MBOBook, fast: MBOBookWithBIT, mine: set<object>, theirs: set<object>)
    reads mine, theirs
  {
    && mine !! theirs && ScanReady(simple, mine) && TreeReady(fast, theirs)
    && simple.State() == fast.State() && BookAgrees(simple.State().book)
  }

  /** The two books take one harmless operation together, with the same outcome. */
  method StepBoth(simple: MBOBook, fast: MBOBookWithBIT, op: Op, ghost mine: set<object>, ghost theirs: set<object>)
    returns (o: Outcome)
    requires Together(simple, fast, mine, theirs) && Harmless(simple.State(), op)
    requires HandleOk(op, simple.pool.capacity) && HandleOk(op, fast.pool.capacity)
    modifies mine, theirs
    ensures Together(simple, fast, mine, theirs) && (simple.State(), o) == Step(Scan, old(simple.State()), op)
  {
    TogetherShaped(simple, fast, mine, theirs);
    hide Step, ScanReady, TreeReady, Harmless, BookAgrees, BookShaped;
    hide MBOBook.State, MBOBook.Footprint, MBOBookWithBIT.State, MBOBookWithBIT.Footprint;
    StepsAgree(simple.State(), op);
    o := OnScan(simple, op, mine);
    var other := OnTree(fast, op, theirs);
    assert other == o;
  }

  /** Where a run stands: what is left to do, from here, completes the whole. */
  ghost predicate Doing(whole: (Desk, seq<Outcome>), d: Desk, left: seq<Op>, outs: seq<Outcome>)
    requires BookShaped(d.book)
  {
    whole == (Run(Scan, d, left).0, outs + Run(Scan, d, left).1)
  }

  lemma DoingNext(whole: (Desk, seq<Outcome>), d: Desk, ops: seq<Op>, i: nat, outs: seq<Outcome>)
    requires BookShaped(d.book) && i < |ops| && Doing(whole, d, ops[i..], outs) && HarmlessRun(d, ops[i..])
    ensures Harmless(d, ops[i])
    ensures var (next, o) := Step(Scan, d, ops[i]);
      Doing(whole, next, ops[i + 1..], outs + [o]) && HarmlessRun(next, ops[i + 1..])
  {
    hide Step, Harmless;
    var (next, o) := Step(Scan, d, ops[i]);
    assert ops[i..][1..] == ops[i + 1..];
    assert outs + ([o] + Run(Scan, next, ops[i + 1..]).1) == (outs + [o]) + Run(Scan, next, ops[i + 1..]).1;
  }

  /** Over any harmless run the two books go through the same states with the same handles and fills. */
  method RunBoth(simple: MBOBook, fast: MBOBookWithBIT, ops: seq<Op>, ghost mine: set<object>,
                 ghost theirs: set<object>)
    returns (outs: seq<Outcome>)
    requires Together(simple, fast, mine, theirs) && HarmlessRun(simple.State(), ops)
    requires forall i | 0 <= i < |ops| :: HandleOk(ops[i], simple.pool.capacity) && HandleOk(ops[i], fast.pool.capacity)
    modifies mine, theirs
    ensures Together(simple, fast, mine, theirs) && (simple.State(), outs) == Run(Scan, old(simple.State()), ops)
  {
    hide Together, Run, Step, Doing, Harmless, HarmlessRun, MBOBook.State, MBOBookWithBIT.State;
    TogetherShaped(simple, fast, mine, theirs);
    ghost var whole := Run(Scan, simple.State(), ops);
    outs := [];
    DoingStarts(simple.State(), ops);
    for i := 0 to |ops|
      invariant Together(simple, fast, mine, theirs) && BookShaped(simple.State().book)
      invariant Doing(whole, simple.State(), ops[i..], outs) && HarmlessRun(simple.State(), ops[i..])
    {
      DoingNext(whole, simple.State(), ops, i, outs);
      var o := StepBoth(simple, fast, ops[i], mine, theirs);
      outs := outs + [o];
      TogetherShaped(simple, fast, mine, theirs);
    }
    DoingEnds(whole, simple.State(), ops[|ops|..], outs);
  }

  lemma TogetherShaped(simple: MBOBook, fast: MBOBookWithBIT, mine: set<object>, theirs: set<object>)
    requires Together(simple, fast, mine, theirs)
    ensures BookShaped(simple.State().book)
  {
  }

  lemma DoingStarts(d: Desk, ops: seq<Op>)
    requires BookShaped(d.book)
    ensures Doing(Run(Scan, d, ops), d, ops[0..], [])
  {
    hide Run;
    assert ops[0..] == ops;
    assert [] + Run(Scan, d, ops).1 == Run(Scan, d, ops).1;
  }

  lemma DoingEnds(whole: (Desk, seq<Outcome>), d: Desk, none: seq<Op>, outs: seq<Outcome>)
    requires BookShaped(d.book) && none == [] && Doing(whole, d, none, outs)
    ensures whole == (d, outs)
  {
    assert Run(Scan, d, []) == (d, []);
    assert outs + [] == outs;
  }

  function AllFree(orders: uint32): seq<uint32> {
    seq(orders, i requires 0 <= i < orders => i)
  }

  method NewScan(orders: uint32, levels: uint32) returns (b: MBOBook, ghost mine: set<object>)
    requires 1 <= orders <= 0x8000_0000 && 1 <= levels < 0x8000_0000
    ensures ScanReady(b, mine) && fresh(mine) && b.State() == Desk(EmptyBook(levels), AllFree(orders))
  {
    hide FreelistOk, EmptyBook, MBOBook.Valid;
    var pool := new OrderPool(orders);
    b := new MBOBook(pool, levels, 0);
    mine := b.Footprint() + pool.Footprint();
  }

  method NewTree(orders: uint32, levels: uint32) returns (b: MBOBookWithBIT, ghost mine: set<object>)
    requires 1 <= orders <= 0x8000_0000 && 1 <= levels < 0x8000_0000
    ensures TreeReady(b, mine) && fresh(mine) && b.State() == Desk(EmptyBook(levels), AllFree(orders))
  {
    hide FreelistOk, EmptyBook, MBOBookWithBIT.Valid;
    var pool := new OrderPool(orders);
    b := new MBOBookWithBIT(pool, levels, 0);
    mine := b.Footprint() + pool.Footprint();
  }

  /** Two empty books on new pools start together. */
  method NewPair(orders: uint32, levels: uint32)
    returns (simple: MBOBook, fast: MBOBookWithBIT, ghost mine: set<object>, ghost theirs: set<object>)
    requires 1 <= orders <= 0x8000_0000 && 1 <= levels < 0x8000_0000
    ensures Together(simple, fast, mine, theirs) && simple.State() == Desk(EmptyBook(levels), AllFree(orders))
  {
    EmptyAgrees(levels);
    EmptyIsExact(levels);
    hide ScanReady, TreeReady, SideAgrees, BookShaped, EmptyBook, MBOBook.State, MBOBookWithBIT.State;
    hide MBOBook.Footprint, MBOBookWithBIT.Footprint;
    simple, mine := NewScan(orders, levels);
    fast, theirs := NewTree(orders, levels);
  }
}
