/** Which messages make a book's best ask meet or fall below its best bid. */
module Crossing {
  import opened Machine
  import opened BookSpec
  import opened BookTheorems
  import opened LfuSpec
  import TrieSpec
  import opened EngineSpec
  import opened EngineTheorems

  predicate Uncrossed(b: Book) {
    b.ask.best == INVALID_PRICE || b.bid.best < b.ask.best
  }

  /**
   * An accepted add crosses an uncrossed book in two cases. Without asks the mid price is about half the best
   * bid, so an add between the two becomes an ask. With the best prices 0 and 1 the mid price comes out 0 and
   * the default takes its place, so an add from 1 up to the default becomes a bid.
   */
  predicate Crosses(b: Book, placed: bool, price: uint32) {
    && placed && price < |b.bid.queues|
    && ((b.ask.best == INVALID_PRICE && b.bid.best >= 3 && (b.bid.best - 1) / 2 < price <= b.bid.best)
        || (b.bid.best == 0 && b.ask.best == 1 && 1 <= price <= 50000))
  }

  lemma AddUncrossedIff(d: Desk, m: Message)
    requires BookShaped(d.book) && Uncrossed(d.book) && m.kind == 'A'
    ensures Uncrossed(Serve(d, m).book) <==> !Crosses(d.book, d.free != [], m.price)
  {
  }

  // ---- what trades do to best prices ----

  lemma RepairStaysBehind(isBid: bool, s: Side)
    requires Shaped(isBid, s) && NoVolumeBeyond(isBid, s)
    ensures !Beyond(isBid, VolumeBest(isBid, s.queues), s.best)
  {
  }

  lemma DropStaysBehind(isBid: bool, s: Side, p: uint32, k: nat)
    requires Shaped(isBid, s) && p < |s.queues| && k < |s.queues[p]| && NoVolumeBeyond(isBid, s)
    ensures !Beyond(isBid, DropSide(Lifting, isBid, s, p, k).best, s.best)
  {
    hide VolumeBest;
    VolumeWithout(s.queues[p], k);
    var d := DropSide(Lifting, isBid, s, p, k).(best := s.best);
    RepairStaysBehind(isBid, d);
  }

  /** A trade never improves the best price of its side. */
  lemma {:induction false} TradeStaysBehind(isBid: bool, s: Side, p: uint32, qty: uint32)
    requires Shaped(isBid, s) && p < |s.queues| && NoVolumeBeyond(isBid, s)
    ensures !Beyond(isBid, TradeSide(Lifting, isBid, s, p, qty).side.best, s.best)
    decreases |s.queues[p]|
  {
    hide DropSide, NoVolumeBeyond;
    if qty > 0 && s.queues[p] != [] && s.queues[p][0].qty <= qty {
      DropStaysBehind(isBid, s, p, 0);
      DropKeepsBeyond(Lifting, isBid, s, p, 0);
      TradeStaysBehind(isBid, DropSide(Lifting, isBid, s, p, 0), p, qty - s.queues[p][0].qty);
    }
  }

  lemma OthersStayUncrossed(d: Desk, m: Message)
    requires BookShaped(d.book) && Uncrossed(d.book) && WeakBook(d.book) && m.kind != 'A'
    ensures Uncrossed(Serve(d, m).book)
  {
    hide TradeSide, NoVolumeBeyond;
    if m.kind == 'T' && m.price < |d.book.bid.queues| {
      var isBid := m.price <= Mid(d.book);
      TradeStaysBehind(isBid, SideOf(d.book, isBid), m.price, m.qty);
      assert Shaped(isBid, TradeSide(Lifting, isBid, SideOf(d.book, isBid), m.price, m.qty).side);
    }
  }

  // ---- no ask at a price below 2 ----

  ghost predicate AsksFromTwo(s: Side) {
    s.best >= 2 && forall p | 0 <= p < 2 && p < |s.queues| :: s.queues[p] == []
  }

  lemma {:induction false} TradeKeepsAsks(s: Side, p: uint32, qty: uint32)
    requires Shaped(false, s) && p < |s.queues| && AsksFromTwo(s)
    ensures AsksFromTwo(TradeSide(Lifting, false, s, p, qty).side)
    decreases |s.queues[p]|
  {
    if qty > 0 && s.queues[p] != [] && s.queues[p][0].qty <= qty {
      var next := DropSide(Lifting, false, s, p, 0);
      assert p >= 2;
      TradeKeepsAsks(next, p, qty - s.queues[p][0].qty);
    }
  }

  /** The mid price is at least 1, and only an add above it becomes an ask. */
  lemma ServeKeepsAsks(d: Desk, m: Message)
    requires BookShaped(d.book) && AsksFromTwo(d.book.ask)
    ensures AsksFromTwo(Serve(d, m).book.ask)
  {
    hide TradeSide;
    if m.kind == 'T' && m.price < |d.book.bid.queues| { TradeKeepsAsks(d.book.ask, m.price, m.qty); }
  }

  // ---- over all runs ----

  ghost predicate Tame(b: Book) {
    BookShaped(b) && WeakBook(b) && AsksFromTwo(b.ask)
  }

  ghost predicate AllTame(books: seq<Book>) {
    forall s | 0 <= s < |books| :: Tame(books[s])
  }

  ghost predicate AllUncrossed(books: seq<Book>) {
    forall s | 0 <= s < |books| :: Uncrossed(books[s])
  }

  lemma ServeKeepsTame(d: Desk, m: Message)
    requires Tame(d.book)
    ensures Tame(Serve(d, m).book)
  {
    hide WeakBook, AsksFromTwo, Serve, Apply, EffectOf;
    ServeIsEffect(d, m);
    ApplyKeepsWeak(d.book, EffectOf(d, m));
    ServeKeepsAsks(d, m);
  }

  lemma EmptyIsTame(levels: nat)
    requires 1 <= levels < 0x8000_0000
    ensures Tame(EmptyBook(levels)) && Uncrossed(EmptyBook(levels))
  {
  }

  function RoutedId(c: Config, e: Engine, m: Message): (id: nat)
    requires |m.symbol| == TrieSpec.SYMBOL_LEN
  {
    TrieSpec.GetOrCreate(c.maxNodes, c.maxBooks, e.trie, TrieSpec.Norm(m.symbol)).1
  }

  /**
   * What can be told before a message: it is an add for a cached book without asks, a slot is free, and the
   * price lies between half the best bid and the best bid.
   */
  predicate MessageCrosses(c: Config, e: Engine, m: Message)
    requires |m.symbol| == TrieSpec.SYMBOL_LEN
  {
    var id := RoutedId(c, e, m);
    && m.kind == 'A' && id < c.maxSymbols && id in e.dir.slotOf && e.dir.slotOf[id] < |e.books| && e.free != []
    && var b := e.books[e.dir.slotOf[id]];
       && b.ask.best == INVALID_PRICE && b.bid.best >= 3
       && m.price < |b.bid.queues| && (b.bid.best - 1) / 2 < m.price <= b.bid.best
  }

  /** What one message does to books none of which is crossed. */
  lemma ServeUncrossedIff(d: Desk, m: Message)
    requires Tame(d.book) && Uncrossed(d.book)
    ensures Uncrossed(Serve(d, m).book) <==> !(m.kind == 'A' && Crosses(d.book, d.free != [], m.price))
  {
    hide Serve, WeakBook, Crosses;
    if m.kind == 'A' { AddUncrossedIff(d, m); } else { OthersStayUncrossed(d, m); }
  }

  /** The book a message finds, in terms of the state before. */
  lemma FoundBook(c: Config, e: Engine, id: nat, symbol: seq<uint8>)
    requires EngineOk(c, e) && id < c.maxSymbols
    ensures var (found, slot, how) := Admit(c, e, id, symbol);
      && slot < |e.books| && (how.Hit? <==> id in e.dir.slotOf)
      && (how.Hit? ==> e.dir.slotOf[id] == slot && found.books == e.books && found.free == e.free)
      && (!how.Hit? ==> found.books == e.books[slot := EmptyBook(c.levels)])
  {
    hide BooksOk, TrieFits, BookShaped, DirectoryOk;
    AdmitUnfold(c, e, id, symbol);
  }

  lemma BooksReplacedTame(books: seq<Book>, slot: nat, b: Book)
    requires AllTame(books) && slot < |books| && Tame(b)
    ensures AllTame(books[slot := b])
  {
  }

  lemma BooksReplacedUncrossed(books: seq<Book>, slot: nat, b: Book)
    requires AllUncrossed(books) && slot < |books|
    ensures AllUncrossed(books[slot := b]) <==> Uncrossed(b)
  {
    assert books[slot := b][slot] == b;
  }

  /** One message keeps books tame; and it keeps uncrossed books uncrossed precisely when it does not cross. */
  lemma ProcessCrosses(c: Config, e: Engine, m: Message)
    requires EngineOk(c, e) && |m.symbol| == TrieSpec.SYMBOL_LEN && AllTame(e.books)
    ensures var books := Process(c, e, m).0.books;
      && AllTame(books)
      && (AllUncrossed(e.books) ==> (AllUncrossed(books) <==> !MessageCrosses(c, e, m)))
  {
    hide EngineOk, Admit, Serve, Process, Tame, Uncrossed, AllTame, AllUncrossed, TrieSpec.GetOrCreate;
    TrieStep(c, e, m);
    var (trie, id) := TrieSpec.GetOrCreate(c.maxNodes, c.maxBooks, e.trie, TrieSpec.Norm(m.symbol));
    var e0 := e.(trie := trie);
    if id >= c.maxSymbols {
      ProcessIgnores(c, e, m, trie, id);
    } else {
      FoundBook(c, e0, id, m.symbol);
      var (found, slot, how) := Admit(c, e0, id, m.symbol);
      ProcessServes(c, e, m, trie, id, found, slot, how);
      LevelsInRange(c, e);
      EmptyIsTame(c.levels);
      BooksReplacedTame(e.books, slot, EmptyBook(c.levels));
      ServedBook(found, slot, m);
      if AllUncrossed(e.books) {
        BooksReplacedUncrossed(e.books, slot, EmptyBook(c.levels));
        ServedUncrossed(found, slot, m);
      }
    }
  }

  lemma ServedBook(found: Engine, slot: nat, m: Message)
    requires slot < |found.books| && AllTame(found.books)
    ensures BookShaped(found.books[slot])
    ensures AllTame(found.books[slot := Serve(Desk(found.books[slot], found.free), m).book])
  {
    hide Serve, WeakBook;
    ServeKeepsTame(Desk(found.books[slot], found.free), m);
  }

  lemma ServedUncrossed(found: Engine, slot: nat, m: Message)
    requires slot < |found.books| && AllTame(found.books) && AllUncrossed(found.books)
    ensures BookShaped(found.books[slot])
    ensures var b := found.books[slot];
      && b.ask.best != 1
      && (AllUncrossed(found.books[slot := Serve(Desk(b, found.free), m).book]) <==>
          !(m.kind == 'A' && Crosses(b, found.free != [], m.price)))
  {
    hide Serve, WeakBook, Uncrossed;
    var b := found.books[slot];
    ServeUncrossedIff(Desk(b, found.free), m);
    BooksReplacedUncrossed(found.books, slot, Serve(Desk(b, found.free), m).book);
  }

  lemma LevelsInRange(c: Config, e: Engine)
    requires EngineOk(c, e)
    ensures 1 <= c.levels < 0x8000_0000
  {
  }

  ghost predicate UncrossedAfter(c: Config, msgs: seq<Message>, k: nat)
    requires ConfigOk(c) && MessagesOk(msgs) && k <= |msgs|
  {
    AllUncrossed(History(c, msgs[..k]).0.books)
  }

  ghost predicate CrossesAt(c: Config, msgs: seq<Message>, k: nat)
    requires ConfigOk(c) && MessagesOk(msgs) && k < |msgs|
  {
    MessageCrosses(c, History(c, msgs[..k]).0, msgs[k])
  }

  /**
   * Over every run from the start, no book is ever crossed precisely when no message is an add, for a cached
   * book without asks, at a price between half its best bid and its best bid. Books are tame throughout: no
   * volume beyond a best price, and no ask at a price below 2.
   */
  lemma {:induction false} CrossedIff(c: Config, msgs: seq<Message>)
    requires ConfigOk(c) && MessagesOk(msgs)
    ensures AllTame(History(c, msgs).0.books)
    ensures (forall k | 0 <= k <= |msgs| :: UncrossedAfter(c, msgs, k)) <==>
            (forall k | 0 <= k < |msgs| :: !CrossesAt(c, msgs, k))
    decreases |msgs|
  {
    hide EngineOk, EngineSpec.History, Process, MessageCrosses, AllTame, AllUncrossed;
    if msgs == [] {
      StartsTame(c);
      assert msgs[..0] == [];
    } else {
      var n := |msgs| - 1;
      var init := msgs[..n];
      CrossedIff(c, init);
      assert forall k | 0 <= k <= n :: init[..k] == msgs[..k];
      HistoryOfMore(c, msgs, n);
      assert msgs[..n + 1] == msgs;
      ProcessCrosses(c, History(c, init).0, msgs[n]);
      assert forall k | 0 <= k <= n :: UncrossedAfter(c, msgs, k) <==> UncrossedAfter(c, init, k);
      assert forall k | 0 <= k < n :: CrossesAt(c, msgs, k) <==> CrossesAt(c, init, k);
      assert UncrossedAfter(c, msgs, n) <==> AllUncrossed(History(c, init).0.books);
      assert UncrossedAfter(c, msgs, n + 1) <==> AllUncrossed(History(c, msgs).0.books);
      assert CrossesAt(c, msgs, n) <==> MessageCrosses(c, History(c, init).0, msgs[n]);
    }
  }

  lemma StartsTame(c: Config)
    requires ConfigOk(c)
    ensures AllTame(History(c, []).0.books) && AllUncrossed(History(c, []).0.books)
  {
    hide Tame, Uncrossed;
    EmptyIsTame(c.levels);
  }

  // ---- the spread ----

  /** The spread is the difference of the best prices unless the bid is above the ask, and 0 when one is missing. */
  lemma SpreadTrueIff(b: Book)
    ensures b.ask.best == INVALID_PRICE || b.bid.best == 0 ==> SpreadOf(b) == 0
    ensures b.ask.best != INVALID_PRICE && b.bid.best != 0 ==>
      && (SpreadOf(b) == b.ask.best - b.bid.best <==> b.bid.best <= b.ask.best)
      && (b.bid.best > b.ask.best ==> SpreadOf(b) == TWO32 - (b.bid.best - b.ask.best))
  {
  }

  ghost predicate SpreadsTrue(books: seq<Book>) {
    forall s | 0 <= s < |books| && books[s].ask.best != INVALID_PRICE && books[s].bid.best != 0 ::
      0 < SpreadOf(books[s]) == books[s].ask.best - books[s].bid.best
  }

  /** In a run without a crossing message every spread is true and positive throughout. */
  lemma SpreadsTrueUncrossed(c: Config, msgs: seq<Message>, k: nat)
    requires ConfigOk(c) && MessagesOk(msgs) && k <= |msgs|
    requires forall i | 0 <= i < |msgs| :: !CrossesAt(c, msgs, i)
    ensures SpreadsTrue(History(c, msgs[..k]).0.books)
  {
    hide History, EngineOk, AllUncrossed, SpreadsTrue, AllTame;
    CrossedIff(c, msgs);
    assert UncrossedAfter(c, msgs, k);
    UncrossedSpreads(History(c, msgs[..k]).0.books);
  }

  lemma UncrossedSpreads(books: seq<Book>)
    requires AllUncrossed(books)
    ensures SpreadsTrue(books)
  {
    forall s | 0 <= s < |books| && books[s].ask.best != INVALID_PRICE && books[s].bid.best != 0
      ensures 0 < SpreadOf(books[s]) == books[s].ask.best - books[s].bid.best
    {
      assert Uncrossed(books[s]);
      SpreadTrueIff(books[s]);
    }
  }

  /** The adds that cross a book leave it with a spread of 2^32 - 40. */
  lemma SpreadCanWrap()
    ensures var d := Desk(EmptyBook(1000), [0, 1]);
      var first := Message('A', [65, 65, 65, 65, 65, 65, 65, 65], 1, 100, 10);
      var second := Message('A', [65, 65, 65, 65, 65, 65, 65, 65], 2, 60, 10);
      SpreadOf(Serve(Serve(d, first), second).book) == TWO32 - 40
  {
    BooksCanCross();
  }
}
