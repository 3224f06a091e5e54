/**
 * What a message does to the book it reaches, told from its fields and the best prices: which side its price puts
 * it on, and what then changes in the queues.
 */
module Serving {
  import opened Machine
  import opened BookSpec
  import opened EngineSpec
  import opened Operations

  /** One order of this id and quantity has gone to the end of a queue, in the first free slot; no other has changed. */
  ghost predicate Added(d: Desk, d': Desk, isBid: bool, price: uint32, id: uint64, qty: uint32) {
    && price < |SideOf(d.book, isBid).queues| && d.free != [] && d.free == [d.free[0]] + d'.free
    && OthersSame(d.book, d'.book, isBid, price)
    && SideOf(d'.book, isBid).queues[price] == SideOf(d.book, isBid).queues[price] + [Entry(d.free[0], id, qty)]
  }

  /** A queue has been matched from its front for the lesser of the quantity and its volume; no other has changed. */
  ghost predicate Traded(d: Desk, d': Desk, isBid: bool, price: uint32, qty: uint32, n: nat) {
    && price < |SideOf(d.book, isBid).queues| && OthersSame(d.book, d'.book, isBid, price)
    && var q, q' := SideOf(d.book, isBid).queues[price], SideOf(d'.book, isBid).queues[price];
       && LeftAfter(q, q', n, qty) && Volume(q') == Volume(q) - Min(qty, Volume(q))
       && d'.free == Reverse(Slots(q[..n])) + d.free
  }

  /**
   * Every message, on the side its price has. With asks, prices up to half the sum of the best prices are bids, or
   * up to the default when that half is 0. Without asks but with a best bid above 2, prices below half of it are;
   * with a best bid of 1 or 2, prices up to the default; without bids either, all prices of any book.
   */
  lemma Served(d: Desk, m: Message, isBid: bool) returns (n: nat)
    requires BookShaped(d.book)
    requires var bid, ask := d.book.bid.best, d.book.ask.best;
      isBid <==>
        if ask != 0xFFFF_FFFF then (if bid + ask <= 1 then m.price <= 50000 else 2 * m.price <= bid + ask)
        else if bid > 2 then 2 * m.price < bid
        else if bid > 0 then m.price <= 50000
        else m.price < 0x8000_0000
    ensures var d' := Serve(d, m);
      if m.kind == 'A' && m.price < |d.book.bid.queues| && d.free != [] then
        Added(d, d', isBid, m.price, (m.timestamp % 0x1_0000_0000) * 0x1_0000_0000 + m.price, m.qty)
      else if m.kind == 'T' && m.price < |d.book.bid.queues| then
        Traded(d, d', isBid, m.price, m.qty, n)
      else d' == d
  {
    n := 0;
    SideByMid(d.book, m.price, isBid);
    hide Mid, TradeSide, LeftAfter, Reverse;
    if m.kind == 'A' {
      if m.price < |d.book.bid.queues| && d.free != [] {
        AddPlaces(isBid, SideOf(d.book, isBid), m.price, Entry(d.free[0], OrderId(m), m.qty));
      }
    } else if m.kind == 'T' {
      n := TradeAnswers(Lifting, d, isBid, m.price, m.qty);
    }
  }

  lemma SideByMid(b: Book, price: uint32, isBid: bool)
    requires BookShaped(b)
    requires var bid, ask := b.bid.best, b.ask.best;
      isBid <==>
        if ask != 0xFFFF_FFFF then (if bid + ask <= 1 then price <= 50000 else 2 * price <= bid + ask)
        else if bid > 2 then 2 * price < bid
        else if bid > 0 then price <= 50000
        else price < 0x8000_0000
    ensures isBid <==> price <= Mid(b)
  {
  }

  /**
   * In an uncrossed book with asks, none below price 2, a message at or below the best bid is for the bids and one
   * at or above the best ask is for the asks.
   */
  lemma ServedAtQuotes(d: Desk, m: Message) returns (n: nat)
    requires BookShaped(d.book) && m.price < |d.book.bid.queues|
    requires d.book.bid.best < d.book.ask.best && 2 <= d.book.ask.best != 0xFFFF_FFFF
    requires m.price <= d.book.bid.best || m.price >= d.book.ask.best
    ensures var d', isBid := Serve(d, m), m.price <= d.book.bid.best;
      && (m.kind == 'T' ==> Traded(d, d', isBid, m.price, m.qty, n))
      && (m.kind == 'A' && d.free != [] ==>
            Added(d, d', isBid, m.price, (m.timestamp % 0x1_0000_0000) * 0x1_0000_0000 + m.price, m.qty))
  {
    hide Serve, Added, Traded;
    n := Served(d, m, m.price <= d.book.bid.best);
  }

  /** One bid of 10 at 100 and one ask of 10 at 110: a trade of 5 at 100 takes 5 from the bid. */
  lemma TradeTakesTheBid()
    ensures var d := TwoQuotes();
      var b := Serve(d, Message('T', [65, 65, 65, 65, 65, 65, 65, 65], 0, 100, 5)).book;
      b.bid.queues[100] == [Entry(0, 1, 5)] && b.ask.queues[110] == [Entry(1, 2, 10)]
  {
    var d, m := TwoQuotes(), Message('T', [65, 65, 65, 65, 65, 65, 65, 65], 0, 100, 5);
    var q := d.book.bid.queues[100];
    assert q == [Entry(0, 1, 10)] && Volume(q) == 10 + Volume(q[1..]) && q[1..] == [];
    hide Serve;
    var n := ServedAtQuotes(d, m);
    var q' := Serve(d, m).book.bid.queues[100];
    assert q[..1] == q && q[1..] == [] && q[0..] == q;
    if q' != [] { HeadOff(q'); assert q'[1..] == q[1..]; }
  }

  function TwoQuotes(): (d: Desk) {
    var empty := EmptyBook(200);
    Desk(Book(AddSide(true, empty.bid, 100, Entry(0, 1, 10)), AddSide(false, empty.ask, 110, Entry(1, 2, 10))), [2])
  }
}
