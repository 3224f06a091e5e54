/** The per-message step of the pipeline, from symbol to book operation. */
module Routing {
  import opened Machine
  import opened Pool
  import BookSpec
  import opened QueueLinks
  import opened BitBook
  import opened BookCache
  import LfuSpec
  import opened LfuDirectories
  import TrieSpec
  import opened SymbolTrie
  import opened EngineSpec
  import opened Conservation
  import opened MessageReplay

  class Router {
    const pool: OrderPool
    const trie: PrefixTrie
    const cache: LFUCache
    var uniqueSymbols: uint64
    var parseFailures: uint64
    var totalPackets: uint64

    ghost function Capacities(): Config {
      Config(cache.levels, pool.capacity, cache.dir.capacity, cache.dir.maxSymbols, cache.dir.maxFrequency,
             trie.maxNodes, trie.maxBooks)
    }

    ghost function Footprint(): set<object> {
      {this} + trie.Footprint() + cache.memory + cache.dir.Footprint() + pool.Footprint()
    }

    ghost predicate Wired() {
      && cache.pool == pool && cache.Wired()
      && trie.Footprint() !! cache.memory && trie.Footprint() !! cache.dir.Footprint()
      && trie.Footprint() !! pool.Footprint()
      && this !in trie.Footprint() && this !in cache.memory && this !in cache.dir.Footprint()
      && this !in pool.Footprint()
    }

    ghost function State(): Engine
      requires Wired()
      reads Footprint()
    {
      Engine(trie.trie, cache.dir.dir, cache.Books(), pool.free)
    }

    ghost predicate Valid()
      reads Footprint()
    {
      Wired() && trie.Valid() && cache.Valid() && EngineOk(Capacities(), State())
    }

    /** The engine as it starts, with nothing allocated, cached or registered. */
    constructor (c: Config)
      requires ConfigOk(c)
      ensures Valid() && Capacities() == c && State() == InitialEngine(c)
    {
      hide FreelistOk, LFUCache.Valid, LFUCache.Ready, LFUCache.Wired, PrefixTrie.Valid, LFUDirectory.Valid, EngineOk;
      hide BookSpec.EmptyBook, LfuSpec.EmptyDirectory;
      var orderPool := new OrderPool(c.maxOrders);
      var symbols := new PrefixTrie(c.maxNodes, c.maxBooks);
      var books := new LFUCache(orderPool, c.levels, c.capacity, c.maxSymbols, c.maxFrequency);
      books.ValidParts();
      books.ReadyParts();
      pool, trie, cache := orderPool, symbols, books;
      uniqueSymbols, parseFailures, totalPackets := 0, 0, 0;
      new;
      InitialEngineOk(c);
      assert pool.free == InitialEngine(c).free;
      assert State() == InitialEngine(c);
    }

    /** Routes one message to the book of its symbol and applies it there. */
    method Process(m: Message)
      requires Valid() && |m.symbol| == TrieSpec.SYMBOL_LEN
      modifies Footprint()
      ensures Valid()
      ensures var (after, event) := EngineSpec.Process(Capacities(), old(State()), m);
        && State() == after
        && (if event.Ignored? then parseFailures == Next64(old(parseFailures)) && totalPackets == old(totalPackets)
            else parseFailures == old(parseFailures) && totalPackets == Next64(old(totalPackets)))
      ensures uniqueSymbols == if TrieSpec.Norm(m.symbol) in old(State()).trie.ids then old(uniqueSymbols)
                               else Next64(old(uniqueSymbols))
    {
      hide LFUCache.Valid, PrefixTrie.Valid, LFUDirectory.Valid, LFUCache.Ready, LFUCache.Wired;
      hide EngineOk, Admit, Serve, EngineSpec.Process, BookSpec.BookShaped, TrieSpec.GetOrCreate;
      ghost var c, e := Capacities(), State();
      ProcessOk(c, e, m);
      var book, id, slot, how := Locate(m);
      ghost var found := State();
      if book == null {
        ProcessIgnores(c, e, m, trie.trie, id);
        parseFailures := Next64(parseFailures);
        return;
      }
      ProcessServes(c, e, m, trie.trie, id, found, slot, how);
      cache.ValidParts();
      cache.ReadyParts();
      assert trie !in cache.reprs[slot] && cache.dir !in cache.reprs[slot];
      Apply(book, slot, m);
      cache.ValidParts();
      assert trie.Valid() && cache.Valid() && trie.trie == found.trie && cache.dir.dir == found.dir;
      totalPackets := Next64(totalPackets);
    }

    /** The state is the one that these messages lead to from the start. */
    ghost predicate Reached(msgs: seq<Message>)
      reads Footprint()
    {
      && Valid() && MessagesOk(msgs) && ConfigOk(Capacities())
      && State() == History(Capacities(), msgs).0
    }

    /** The pool's count of active orders is the number of orders resting in the books. */
    lemma ActiveIsResting(msgs: seq<Message>)
      requires Reached(msgs)
      ensures Wired() && pool.activeCount == TallyBooks(State().books, None)
    {
      hide EngineOk, History, LFUCache.Valid, LFUCache.Wired, PrefixTrie.Valid, TallyBooks;
      RestingAndFree(Capacities(), msgs);
      cache.ValidParts();
    }

    /**
     * The loop over received messages, from the start: the state reached is that of the specified run, and the
     * counters have counted its messages.
     */
    method Run(msgs: seq<Message>)
      requires Valid() && State() == InitialEngine(Capacities()) && MessagesOk(msgs)
      modifies Footprint()
      ensures Reached(msgs)
      ensures pool.activeCount == TallyBooks(State().books, None)
      ensures ConfigOk(Capacities()) && Counted(CountsOf(Capacities(), msgs), old(Counters()), Counters())
    {
      hide Valid, Reached, LFUCache.Wired, Counted, TallyBooks, CountsOf, EngineOk, InitialEngine;
      StartReached();
      ReachedFacts([]);
      CountsOfNone(Capacities());
      CountedNone(Counters());
      for i := 0 to |msgs|
        invariant Reached(msgs[..i]) && Counted(CountsOf(Capacities(), msgs[..i]), old(Counters()), Counters())
      {
        ProcessNext(msgs, i, old(Counters()));
      }
      assert msgs[..|msgs|] == msgs;
      ReachedFacts(msgs);
      ActiveIsResting(msgs);
    }

    method ProcessNext(msgs: seq<Message>, i: nat, ghost was: (uint64, uint64, uint64))
      requires MessagesOk(msgs) && i < |msgs| && ConfigOk(Capacities()) && Reached(msgs[..i])
      requires Counted(CountsOf(Capacities(), msgs[..i]), was, Counters())
      modifies Footprint()
      ensures Reached(msgs[..i + 1]) && Counted(CountsOf(Capacities(), msgs[..i + 1]), was, Counters())
    {
      hide Valid, Reached, LFUCache.Wired, Counted, CountsOf, EngineSpec.History, EngineSpec.Process, EngineOk;
      ReachedFacts(msgs[..i]);
      ghost var before, now := State(), Counters();
      CountsOfMore(Capacities(), msgs, i);
      Process(msgs[i]);
      NextReached(msgs, i, before);
      CountedNext(CountsOf(Capacities(), msgs[..i]), CountsOf(Capacities(), msgs[..i + 1]), was, now, Counters());
    }

    ghost function Counters(): (uint64, uint64, uint64)
      reads this
    {
      (totalPackets, parseFailures, uniqueSymbols)
    }

    /** Counters that have counted so much since they were as they were. */
    static ghost predicate Counted(n: Counts, was: (uint64, uint64, uint64), now: (uint64, uint64, uint64)) {
      && now.0 == (was.0 + n.served) % TWO64
      && now.1 == (was.1 + n.ignored) % TWO64
      && now.2 == (was.2 + n.unknown) % TWO64
    }

    static lemma CountedNone(was: (uint64, uint64, uint64))
      ensures Counted(Counts(0, 0, 0), was, was)
    {
    }

    static lemma CountedNext(n: Counts, n': Counts, was: (uint64, uint64, uint64), now: (uint64, uint64, uint64),
                             next: (uint64, uint64, uint64))
      requires Counted(n, was, now)
      requires (n'.served == n.served && next.0 == now.0) || (n'.served == n.served + 1 && next.0 == Next64(now.0))
      requires (n'.ignored == n.ignored && next.1 == now.1) || (n'.ignored == n.ignored + 1 && next.1 == Next64(now.1))
      requires (n'.unknown == n.unknown && next.2 == now.2) || (n'.unknown == n.unknown + 1 && next.2 == Next64(now.2))
      ensures Counted(n', was, next)
    {
      CountUp(was.0, n.served, now.0);
      CountUp(was.1, n.ignored, now.1);
      CountUp(was.2, n.unknown, now.2);
    }

    static lemma CountUp(was: uint64, n: nat, now: uint64)
      requires now == (was + n) % TWO64
      ensures Next64(now) == (was + (n + 1)) % TWO64
    {
    }

    static lemma CountsOfNone(c: Config)
      requires ConfigOk(c)
      ensures CountsOf(c, []) == Counts(0, 0, 0)
    {
    }

    static lemma CountsOfMore(c: Config, msgs: seq<Message>, i: nat)
      requires ConfigOk(c) && MessagesOk(msgs) && i < |msgs|
      ensures var before, e := CountsOf(c, msgs[..i]), History(c, msgs[..i]).0;
        var known := TrieSpec.Norm(msgs[i].symbol) in e.trie.ids;
        var served := EngineSpec.Process(c, e, msgs[i]).1.Routed?;
        CountsOf(c, msgs[..i + 1]) ==
          Counts(before.served + (if served then 1 else 0), before.ignored + (if served then 0 else 1),
                 before.unknown + (if known then 0 else 1))
    {
      hide EngineSpec.History, EngineSpec.Process, EngineOk;
      assert msgs[..i + 1][..i] == msgs[..i];
    }

    lemma StartReached()
      requires Valid() && State() == InitialEngine(Capacities())
      ensures Reached([])
    {
      HistoryOfNone(Capacities());
    }

    lemma ReachedFacts(msgs: seq<Message>)
      requires Reached(msgs)
      ensures Valid() && Wired() && MessagesOk(msgs)
      ensures EngineOk(Capacities(), State()) && ConfigOk(Capacities()) && State() == History(Capacities(), msgs).0
    {
    }

    lemma NextReached(msgs: seq<Message>, i: nat, before: Engine)
      requires Valid() && MessagesOk(msgs) && i < |msgs| && ConfigOk(Capacities())
      requires EngineOk(Capacities(), before) && before == History(Capacities(), msgs[..i]).0
      requires State() == EngineSpec.Process(Capacities(), before, msgs[i]).0
      ensures Reached(msgs[..i + 1])
    {
      hide Valid, EngineSpec.History, EngineSpec.Process, EngineOk;
      HistoryOfMore(Capacities(), msgs, i);
    }

    /** Symbol to id to book. */
    method Locate(m: Message)
      returns (book: MBOBookWithBIT?, ghost id: nat, ghost slot: nat, ghost how: LfuSpec.Admission)
      requires Valid() && |m.symbol| == TrieSpec.SYMBOL_LEN
      modifies Footprint()
      ensures Wired() && trie.Valid() && cache.Valid()
      ensures parseFailures == old(parseFailures) && totalPackets == old(totalPackets)
      ensures uniqueSymbols == if TrieSpec.Norm(m.symbol) in old(State()).trie.ids then old(uniqueSymbols)
                               else Next64(old(uniqueSymbols))
      ensures (trie.trie, id) ==
        TrieSpec.GetOrCreate(trie.maxNodes, trie.maxBooks, old(State()).trie, TrieSpec.Norm(m.symbol))
      ensures var e := old(State()).(trie := trie.trie);
        && EngineOk(Capacities(), e)
        && if id >= cache.dir.maxSymbols then book == null && State() == e
           else && slot < |cache.books| && book == cache.books[slot]
                && (State(), slot, how) == Admit(Capacities(), e, id, m.symbol)
    {
      hide LFUCache.Valid, LFUCache.Ready, PrefixTrie.Valid, LFUDirectory.Valid, EngineOk, Admit, LfuSpec.Access;
      hide LFUCache.Wired;
      hide TrieSpec.GetOrCreate, BookSpec.ClearOrder, BookSpec.EmptyBook, BookSpec.BookShaped;
      TrieStep(Capacities(), State(), m);
      ghost var e := State();
      var bookId, created := trie.GetOrCreate(m.symbol);
      id := bookId;
      if created { uniqueSymbols := Next64(uniqueSymbols); }
      assert cache.Valid() && State() == e.(trie := trie.trie);
      if id < cache.dir.maxSymbols { AdmitUnfold(Capacities(), State(), id, m.symbol); }
      book, slot, how := cache.Access(bookId, m.symbol);
    }

    /** The operation a message asks for, on the book it reached; no other book is touched. */
    method Apply(book: MBOBookWithBIT, ghost slot: nat, m: Message)
      requires Wired() && cache.Ready() && slot < |cache.books| && book == cache.books[slot]
      requires BookSpec.BookShaped(cache.Books()[slot])
      modifies cache.reprs[slot], pool.Footprint()
      ensures cache.Ready()
      ensures var d := Serve(BookSpec.Desk(old(cache.Books())[slot], old(pool.free)), m);
        cache.Books() == old(cache.Books())[slot := d.book] && pool.free == d.free
    {
      hide BookFrame, FreelistOk, BookSpec.Step;
      hide MBOBookWithBIT.Valid, MBOBookWithBIT.Own, MBOBookWithBIT.LinkedTo, MBOBookWithBIT.Footprint,
        MBOBookWithBIT.Abs;
      ghost var o0, w0 := pool.orders[..], pool.owner;
      book.ValidByParts();
      Dispatch(book, m);
      book.ValidByParts();
      forall i | 0 <= i < |cache.books| && i != slot
        ensures cache.books[i].Own() && cache.books[i].LinkedTo(pool.orders[..], pool.owner)
        ensures cache.books[i].Abs() == old(cache.books[i].Abs())
      {
        assert cache.reprs[i] !! cache.reprs[slot] && cache.reprs[i] <= cache.memory;
        assert old(cache.books[i].Own()) && old(cache.books[i].LinkedTo(o0, w0));
        assert cache.books[i].Own() && cache.books[i].LinkedTo(o0, w0);
        cache.books[i].StaysLinked(o0, w0, pool.orders[..], pool.owner, slot);
      }
      cache.OwnersStay(o0, w0, pool.orders[..], pool.owner, slot);
    }

    static method Dispatch(book: MBOBookWithBIT, m: Message)
      requires book.Valid() && BookSpec.BookShaped(book.Abs())
      modifies book.Footprint(), book.pool.Footprint()
      ensures book.Valid() && book.State() == Serve(old(book.State()), m)
      ensures BookFrame(old(book.pool.orders[..]), old(book.pool.owner), book.pool.orders[..], book.pool.owner,
        book.tag)
    {
      hide BookFrame, FreelistOk, BookSpec.Step, MBOBookWithBIT.Valid, MBOBookWithBIT.Abs, MBOBookWithBIT.Footprint;
      if m.kind == 'A' || m.kind == 'T' {
        var mid: uint32 := (book.GetBestBid() + book.GetBestAsk()) % TWO32 / 2;
        if mid == 0 { mid := 50000; }
        if m.kind == 'A' {
          var orderId: uint64 := (m.timestamp % TWO32) * TWO32 + m.price;
          if m.price <= mid {
            var _ := book.EnqueueBid(m.price, orderId, m.qty);
          } else {
            var _ := book.EnqueueAsk(m.price, orderId, m.qty);
          }
        } else {
          if m.price <= mid {
            var _ := book.TradeBid(m.price, m.qty);
          } else {
            var _ := book.TradeAsk(m.price, m.qty);
          }
        }
      } else {
        book.NothingDone();
      }
    }
  }
}
