/** Every slot of the pool is in exactly one place, over every run of one book and of the whole engine. */
module Conservation {
  import opened Machine
  import opened Distinctness
  import opened Pool
  import opened BookSpec
  import opened LfuSpec
  import opened TrieSpec
  import opened EngineSpec

  /** What is being counted: every slot, or the occurrences of one. */
  type Which = Option<uint32>

  function One(y: uint32, x: Which): (n: nat) {
    if x == None || x == Some(y) then 1 else 0
  }

  function Tally(s: seq<uint32>, x: Which): (n: nat) {
    if s == [] then 0 else One(s[0], x) + Tally(s[1..], x)
  }

  function TallyQueue(q: Queue, x: Which): (n: nat) {
    if q == [] then 0 else One(q[0].slot, x) + TallyQueue(q[1..], x)
  }

  function TallyQueues(queues: seq<Queue>, x: Which): (n: nat) {
    if queues == [] then 0 else TallyQueue(queues[0], x) + TallyQueues(queues[1..], x)
  }

  function TallyBook(b: Book, x: Which): (n: nat) {
    TallyQueues(b.bid.queues, x) + TallyQueues(b.ask.queues, x)
  }

  function TallyBooks(books: seq<Book>, x: Which): (n: nat) {
    if books == [] then 0 else TallyBook(books[0], x) + TallyBooks(books[1..], x)
  }

  /** A book and its freelist. */
  function TallyDesk(d: Desk, x: Which): (n: nat) {
    Tally(d.free, x) + TallyBook(d.book, x)
  }

  /** The freelist and all books. */
  function TallyEngine(e: Engine, x: Which): (n: nat) {
    Tally(e.free, x) + TallyBooks(e.books, x)
  }

  lemma {:induction false} TallyConcat(a: seq<uint32>, b: seq<uint32>, x: Which)
    ensures Tally(a + b, x) == Tally(a, x) + Tally(b, x)
    decreases |a|
  {
    if a == [] {
      assert a + b == b;
    } else {
      assert (a + b)[1..] == a[1..] + b;
      TallyConcat(a[1..], b, x);
    }
  }

  lemma {:induction false} TallyAll(s: seq<uint32>)
    ensures Tally(s, None) == |s|
    decreases |s|
  {
    if s != [] { TallyAll(s[1..]); }
  }

  lemma {:induction false} TallyRelease(free: seq<uint32>, released: seq<uint32>, x: Which)
    ensures Tally(Release(free, released), x) == Tally(free, x) + Tally(released, x)
    decreases |released|
  {
    if released != [] {
      TallyRelease([released[0]] + free, released[1..], x);
      TallyConcat([released[0]], free, x);
    }
  }

  lemma {:induction false} QueueConcat(a: Queue, b: Queue, x: Which)
    ensures TallyQueue(a + b, x) == TallyQueue(a, x) + TallyQueue(b, x)
    decreases |a|
  {
    if a == [] {
      assert a + b == b;
    } else {
      assert (a + b)[1..] == a[1..] + b;
      QueueConcat(a[1..], b, x);
    }
  }

  lemma QueueWithout(q: Queue, k: nat, x: Which)
    requires k < |q|
    ensures TallyQueue(q, x) == TallyQueue(Without(q, k), x) + One(q[k].slot, x)
  {
    assert q == q[..k] + ([q[k]] + q[k + 1..]);
    QueueConcat(q[..k], [q[k]] + q[k + 1..], x);
    QueueConcat([q[k]], q[k + 1..], x);
    QueueConcat(q[..k], q[k + 1..], x);
  }

  lemma {:induction false} QueueSlots(q: Queue, x: Which)
    ensures Tally(Slots(q), x) == TallyQueue(q, x)
    decreases |q|
  {
    if q != [] {
      QueueSlots(q[1..], x);
      assert Slots(q)[1..] == Slots(q[1..]);
    }
  }

  lemma {:induction false} QueuesUpdate(queues: seq<Queue>, p: nat, q: Queue, x: Which)
    requires p < |queues|
    ensures TallyQueues(queues[p := q], x) + TallyQueue(queues[p], x) == TallyQueues(queues, x) + TallyQueue(q, x)
    decreases |queues|
  {
    if p == 0 {
      assert queues[p := q][1..] == queues[1..];
    } else {
      QueuesUpdate(queues[1..], p - 1, q, x);
      assert queues[p := q][1..] == queues[1..][p - 1 := q];
    }
  }

  lemma AddConserves(isBid: bool, s: Side, p: uint32, e: Entry, x: Which)
    requires Shaped(isBid, s) && p < |s.queues|
    ensures TallyQueues(AddSide(isBid, s, p, e).queues, x) == TallyQueues(s.queues, x) + One(e.slot, x)
  {
    QueuesUpdate(s.queues, p, s.queues[p] + [e], x);
    QueueConcat(s.queues[p], [e], x);
  }

  lemma DropConserves(rule: Rule, isBid: bool, s: Side, p: uint32, k: nat, x: Which)
    requires Shaped(isBid, s) && p < |s.queues| && k < |s.queues[p]|
    ensures TallyQueues(DropSide(rule, isBid, s, p, k).queues, x) + One(s.queues[p][k].slot, x)
         == TallyQueues(s.queues, x)
  {
    hide DropSide;
    QueuesUpdate(s.queues, p, Without(s.queues[p], k), x);
    QueueWithout(s.queues[p], k, x);
  }

  lemma {:induction false} TradeConserves(rule: Rule, isBid: bool, s: Side, p: uint32, qty: uint32, x: Which)
    requires Shaped(isBid, s) && p < |s.queues|
    ensures var f := TradeSide(rule, isBid, s, p, qty);
      TallyQueues(f.side.queues, x) + Tally(f.released, x) == TallyQueues(s.queues, x)
    decreases |s.queues[p]|
  {
    hide DropSide, TallyQueues;
    var q := s.queues[p];
    if qty > 0 && q != [] {
      if q[0].qty <= qty {
        DropConserves(rule, isBid, s, p, 0, x);
        TradeConserves(rule, isBid, DropSide(rule, isBid, s, p, 0), p, qty - q[0].qty, x);
      } else {
        QueuesUpdate(s.queues, p, [q[0].(qty := q[0].qty - qty)] + q[1..], x);
      }
    }
  }

  lemma {:induction false} ClearOrderTally(b: Book, i: nat, x: Which)
    requires i <= |b.bid.queues| == |b.ask.queues|
    ensures Tally(ClearOrder(b, i), x) == TallyQueues(b.bid.queues[i..], x) + TallyQueues(b.ask.queues[i..], x)
    decreases |b.bid.queues| - i
  {
    if i < |b.bid.queues| {
      ClearOrderTally(b, i + 1, x);
      var bids, asks := Slots(b.bid.queues[i]), Slots(b.ask.queues[i]);
      TallyConcat(bids + asks, ClearOrder(b, i + 1), x);
      TallyConcat(bids, asks, x);
      QueueSlots(b.bid.queues[i], x);
      QueueSlots(b.ask.queues[i], x);
      assert b.bid.queues[i..][1..] == b.bid.queues[i + 1..] && b.ask.queues[i..][1..] == b.ask.queues[i + 1..];
    }
  }

  lemma {:induction false} NoQueues(n: nat, x: Which)
    ensures TallyQueues(seq(n, _ => []), x) == 0
  {
    if n > 0 {
      var queues: seq<Queue> := seq(n, _ => []);
      assert queues[1..] == seq(n - 1, _ => []);
      NoQueues(n - 1, x);
    }
  }

  /** Clearing a book returns exactly its orders to the freelist. */
  lemma ClearConserves(b: Book, free: seq<uint32>, x: Which)
    requires |b.bid.queues| == |b.ask.queues|
    ensures TallyBook(EmptyBook(|b.bid.queues|), x) == 0
    ensures Tally(Release(free, ClearOrder(b, 0)), x) == Tally(free, x) + TallyBook(b, x)
  {
    ClearOrderTally(b, 0, x);
    TallyRelease(free, ClearOrder(b, 0), x);
    NoQueues(|b.bid.queues|, x);
    assert b.bid.queues[0..] == b.bid.queues && b.ask.queues[0..] == b.ask.queues;
  }

  lemma TallyCons(slot: uint32, free: seq<uint32>, x: Which)
    ensures Tally([slot] + free, x) == One(slot, x) + Tally(free, x)
  {
  }

  /** No operation on a book loses or duplicates a slot, refused ones included. */
  lemma StepConserves(rule: Rule, d: Desk, op: Op, x: Which)
    requires BookShaped(d.book)
    ensures TallyDesk(Step(rule, d, op).0, x) == TallyDesk(d, x)
  {
    hide AddSide, DropSide, TradeSide, Tally, TallyQueues, ClearOrder, Release;
    match op
    case Enqueue(isBid, price, id, qty) =>
      if price < |d.book.bid.queues| && d.free != [] {
        AddConserves(isBid, SideOf(d.book, isBid), price, Entry(d.free[0], id, qty), x);
        TallyCons(d.free[0], d.free[1..], x);
        assert [d.free[0]] + d.free[1..] == d.free;
      }
    case Dequeue(slot) =>
      var f := Find(d.book, slot);
      if f.Some? {
        DropConserves(rule, f.value.isBid, SideOf(d.book, f.value.isBid), f.value.price, f.value.k, x);
        TallyCons(slot, d.free, x);
      }
    case Trade(isBid, price, qty) =>
      if price < |d.book.bid.queues| {
        var s := SideOf(d.book, isBid);
        TradeConserves(rule, isBid, s, price, qty, x);
        TallyRelease(d.free, TradeSide(rule, isBid, s, price, qty).released, x);
      }
    case Clear =>
      ClearConserves(d.book, d.free, x);
  }

  lemma {:induction false} RunOfBookConserves(rule: Rule, d: Desk, ops: seq<Op>, x: Which)
    requires BookShaped(d.book)
    ensures TallyDesk(BookSpec.Run(rule, d, ops).0, x) == TallyDesk(d, x)
    decreases |ops|
  {
    if ops != [] {
      StepConserves(rule, d, ops[0], x);
      RunOfBookConserves(rule, Step(rule, d, ops[0]).0, ops[1..], x);
    }
  }

  // ---- the engine ----

  lemma {:induction false} BooksUpdate(books: seq<Book>, s: nat, b: Book, x: Which)
    requires s < |books|
    ensures TallyBooks(books[s := b], x) + TallyBook(books[s], x) == TallyBooks(books, x) + TallyBook(b, x)
    decreases |books|
  {
    hide TallyBook;
    if s == 0 {
      assert books[s := b][1..] == books[1..];
    } else {
      BooksUpdate(books[1..], s - 1, b, x);
      assert books[s := b][1..] == books[1..][s - 1 := b];
    }
  }

  /** Reusing a slot returns exactly the evicted book's orders to the pool. */
  lemma AdmitConserves(c: Config, e: Engine, id: nat, symbol: seq<uint8>, x: Which)
    requires EngineOk(c, e) && id < c.maxSymbols
    ensures var (e', slot, how) := Admit(c, e, id, symbol);
      && TallyEngine(e', x) == TallyEngine(e, x)
      && slot < |e.books|
      && Tally(e'.free, x) == Tally(e.free, x) + (if how.Hit? then 0 else TallyBook(e.books[slot], x))
  {
    hide Access, BooksOk, CacheOk, TrieFits, TallyBook, TallyBooks, Tally, ClearOrder, Release;
    AdmitOk(c, e, id, symbol);
    AccessKeepsCache(c, e.dir, id, symbol);
    var (e', slot, how) := Admit(c, e, id, symbol);
    BooksSize(c, e.books, |e.dir.recs|);
    BookAt(c, e.books, |e.dir.recs|, slot);
    ClearConserves(e.books[slot], e.free, x);
    BooksUpdate(e.books, slot, EmptyBook(c.levels), x);
  }

  lemma ServeConserves(d: Desk, m: Message, x: Which)
    requires BookShaped(d.book)
    ensures TallyDesk(Serve(d, m), x) == TallyDesk(d, x)
  {
    match Route(d.book, m)
    case Some(op) => StepConserves(Lifting, d, op, x);
    case None =>
  }

  lemma ProcessConserves(c: Config, e: Engine, m: Message, x: Which)
    requires EngineOk(c, e) && |m.symbol| == SYMBOL_LEN
    ensures TallyEngine(Process(c, e, m).0, x) == TallyEngine(e, x)
  {
    hide BooksOk, CacheOk, TrieFits, TallyBook, TallyBooks, Tally, EffectOf, Serve, Admit, TrieSpec.GetOrCreate;
    TrieStep(c, e, m);
    var (trie, id) := TrieSpec.GetOrCreate(c.maxNodes, c.maxBooks, e.trie, Norm(m.symbol));
    var e0 := e.(trie := trie);
    if id < c.maxSymbols {
      AdmitOk(c, e0, id, m.symbol);
      AdmitConserves(c, e0, id, m.symbol, x);
      var (e1, slot, how) := Admit(c, e0, id, m.symbol);
      BookAt(c, e1.books, |e1.dir.recs|, slot);
      var d := Desk(e1.books[slot], e1.free);
      ServeConserves(d, m, x);
      BooksUpdate(e1.books, slot, Serve(d, m).book, x);
    }
  }

  lemma {:induction false} RunConserves(c: Config, e: Engine, msgs: seq<Message>, x: Which)
    requires EngineOk(c, e) && MessagesOk(msgs)
    ensures TallyEngine(EngineSpec.Run(c, e, msgs).0, x) == TallyEngine(e, x)
    decreases |msgs|
  {
    hide Process, TallyEngine, EngineOk;
    if msgs != [] {
      RunConserves(c, e, msgs[..|msgs| - 1], x);
      ProcessConserves(c, EngineSpec.Run(c, e, msgs[..|msgs| - 1]).0, msgs[|msgs| - 1], x);
    }
  }

  lemma {:induction false} NoBooks(levels: nat, n: nat, x: Which)
    ensures TallyBooks(seq(n, _ => EmptyBook(levels)), x) == 0
  {
    if n > 0 {
      NoBooks(levels, n - 1, x);
      assert seq(n, _ => EmptyBook(levels))[1..] == seq(n - 1, _ => EmptyBook(levels));
      NoQueues(levels, x);
    }
  }

  lemma {:induction false} TallyOfRange(free: seq<uint32>, i: nat, x: Which)
    requires i <= |free| && forall j | 0 <= j < |free| :: free[j] == j
    ensures Tally(free[i..], x) == match x case None => |free| - i case Some(s) => if i <= s < |free| then 1 else 0
    decreases |free| - i
  {
    if i < |free| {
      TallyOfRange(free, i + 1, x);
      assert free[i..][1..] == free[i + 1..];
    }
  }

  /**
   * After any run from the start, each slot is on the freelist or in one queue of one book, exactly once,
   * and the free slots and the resting orders add up to the capacity of the pool.
   */
  lemma EverySlotOnce(c: Config, msgs: seq<Message>, s: uint32)
    requires ConfigOk(c) && MessagesOk(msgs)
    ensures var e := History(c, msgs).0;
      && TallyEngine(e, Some(s)) == (if s < c.maxOrders then 1 else 0)
      && TallyEngine(e, None) == c.maxOrders
  {
    InitialEngineOk(c);
    var start := InitialEngine(c);
    RunConserves(c, start, msgs, Some(s));
    RunConserves(c, start, msgs, None);
    NoBooks(c.levels, c.capacity, Some(s));
    NoBooks(c.levels, c.capacity, None);
    TallyOfRange(start.free, 0, Some(s));
    TallyOfRange(start.free, 0, None);
    assert start.free[0..] == start.free;
  }

  /** After any run from the start, the free slots and the resting orders add up to the pool. */
  lemma RestingAndFree(c: Config, msgs: seq<Message>)
    requires ConfigOk(c) && MessagesOk(msgs)
    ensures var e := History(c, msgs).0; |e.free| + TallyBooks(e.books, None) == c.maxOrders
  {
    hide History;
    EverySlotOnce(c, msgs, 0);
    TallyAll(History(c, msgs).0.free);
  }
}
