/**
 * The message pipeline on values: symbol to id through the trie, id to book through the cache, and one
 * operation on that book, all books drawing on one freelist.
 */
module EngineSpec {
  import opened Machine
  import opened Pool
  import opened BookSpec
  import opened LfuSpec
  import opened TrieSpec

  /** The capacities of the engine. */
  datatype Config = Config(levels: nat, maxOrders: nat, capacity: nat, maxSymbols: nat, maxFrequency: nat,
                           maxNodes: nat, maxBooks: nat)

  predicate ConfigOk(c: Config) {
    && 1 <= c.levels < 0x8000_0000 && 1 <= c.maxOrders <= 0x8000_0000
    && 1 <= c.capacity < NULL_IDX && 1 <= c.maxSymbols <= 0x1_0000 && 2 <= c.maxFrequency < NULL_IDX
    && 1 <= c.maxNodes < TWO32 && c.maxBooks <= INVALID_BOOK_ID
  }

  /** The capacities the engine is built with. */
  const BUILT: Config := Config(100000, 1000000, 5, 256, 1024, 2048, 1000)

  datatype Message = Message(kind: char, symbol: seq<uint8>, timestamp: uint64, price: uint32, qty: uint32)

  /** Symbols are eight bytes. */
  predicate MessagesOk(msgs: seq<Message>) {
    forall i | 0 <= i < |msgs| :: |msgs[i].symbol| == SYMBOL_LEN
  }

  datatype Engine = Engine(trie: Trie, dir: Directory, books: seq<Book>, free: seq<uint32>)

  ghost predicate TrieFits(c: Config, t: Trie) {
    TrieOk(t) && |t.paths| <= c.maxNodes && |t.ids| <= c.maxBooks
  }

  ghost predicate CacheOk(c: Config, d: Directory) {
    DirectoryOk(c.capacity, d) && forall i | i in d.recs :: i < c.maxSymbols
  }

  /** One book per slot; those beyond the first n are empty. */
  ghost predicate BooksOk(c: Config, books: seq<Book>, n: nat) {
    && |books| == c.capacity
    && (forall s | 0 <= s < |books| :: BookShaped(books[s]) && |books[s].bid.queues| == c.levels)
    && (forall s | n <= s < |books| :: books[s] == EmptyBook(c.levels))
  }

  ghost predicate EngineOk(c: Config, e: Engine) {
    ConfigOk(c) && TrieFits(c, e.trie) && CacheOk(c, e.dir) && BooksOk(c, e.books, |e.dir.recs|)
  }

  function InitialEngine(c: Config): Engine {
    Engine(EMPTY_TRIE, EmptyDirectory(), seq(c.capacity, _ => EmptyBook(c.levels)),
           seq(c.maxOrders, i requires 0 <= i < c.maxOrders => if i < TWO32 then i else 0))
  }

  // ---- one message ----

  /** The price that splits bids from asks, in 32-bit arithmetic, with the default when it comes out 0. */
  function Mid(b: Book): (m: uint32) {
    var m := (b.bid.best + b.ask.best) % TWO32 / 2;
    if m == 0 then 50000 else m
  }

  function OrderId(m: Message): uint64 {
    (m.timestamp % TWO32) * TWO32 + m.price
  }

  function Route(b: Book, m: Message): (op: Option<Op>) {
    if m.kind == 'A' then Some(Enqueue(m.price <= Mid(b), m.price, OrderId(m), m.qty))
    else if m.kind == 'T' then Some(Trade(m.price <= Mid(b), m.price, m.qty))
    else None
  }

  /** What a message did to the one book it reached, without the freelist. */
  datatype Effect =
    | Placed(isBid: bool, price: uint32, entry: Entry)
    | Matched(isBid: bool, price: uint32, qty: uint32)
    | Idle

  datatype Event = Ignored | Routed(id: nat, how: Admission, effect: Effect)

  function EffectOf(d: Desk, m: Message): Effect {
    match Route(d.book, m)
    case Some(Enqueue(isBid, price, id, qty)) =>
      if price >= |SideOf(d.book, isBid).queues| || d.free == [] then Idle
      else Placed(isBid, price, Entry(d.free[0], id, qty))
    case Some(Trade(isBid, price, qty)) => Matched(isBid, price, qty)
    case _ => Idle
  }

  ghost function Serve(d: Desk, m: Message): (r: Desk)
    requires BookShaped(d.book)
    ensures BookShaped(r.book) && |r.book.bid.queues| == |d.book.bid.queues|
  {
    match Route(d.book, m)
    case Some(op) => Step(Lifting, d, op).0
    case None => d
  }

  lemma AccessKeepsCache(c: Config, d: Directory, id: nat, symbol: seq<uint8>)
    requires ConfigOk(c) && CacheOk(c, d) && id < c.maxSymbols
    ensures d.slotOf.Keys == d.recs.Keys
    ensures var (d', slot, how) := Access(c.capacity, c.maxFrequency, d, id, symbol);
      && CacheOk(c, d') && id in d'.slotOf && d'.slotOf[id] == slot < |d'.recs| <= c.capacity
      && (how.Hit? ==> |d'.recs| == |d.recs|) && |d.recs| <= |d'.recs|
  {
    hide Access;
    AccessKeepsDirectory(c.capacity, c.maxFrequency, d, id, symbol);
    AccessSizes(c.capacity, c.maxFrequency, d, id, symbol);
  }

  lemma AccessSizes(capacity: nat, maxFrequency: nat, d: Directory, id: nat, symbol: seq<uint8>)
    requires capacity >= 1 && DirectoryOk(capacity, d)
    ensures var (d', slot, how) := Access(capacity, maxFrequency, d, id, symbol);
      (how.Hit? ==> |d'.recs| == |d.recs|) && |d.recs| <= |d'.recs|
  {
    if id in d.recs {
      HitFacts(capacity, maxFrequency, d, id, symbol);
    } else if |d.recs| < capacity {
      AdmitFacts(capacity, maxFrequency, d, id, symbol);
    } else {
      ReplaceFacts(capacity, maxFrequency, d, id, symbol);
    }
  }

  lemma BooksUpdated(c: Config, books: seq<Book>, n: nat, n': nat, slot: nat, b: Book)
    requires BooksOk(c, books, n) && slot < n' <= |books| && n <= n'
    requires BookShaped(b) && |b.bid.queues| == c.levels
    ensures BooksOk(c, books[slot := b], n')
  {
  }

  lemma BookAt(c: Config, books: seq<Book>, n: nat, slot: nat)
    requires BooksOk(c, books, n) && slot < |books|
    ensures BookShaped(books[slot]) && |books[slot].bid.queues| == c.levels
  {
  }

  /** Finds the book of an id, clearing a slot for it first when it is not cached. */
  ghost function Admit(c: Config, e: Engine, id: nat, symbol: seq<uint8>): (r: (Engine, nat, Admission))
    requires EngineOk(c, e) && id < c.maxSymbols
  {
    AccessKeepsCache(c, e.dir, id, symbol);
    var (dir, slot, how) := Access(c.capacity, c.maxFrequency, e.dir, id, symbol);
    if how.Hit? then (e.(dir := dir), slot, how)
    else
      BookAt(c, e.books, |e.dir.recs|, slot);
      (e.(dir := dir, books := e.books[slot := EmptyBook(c.levels)],
          free := Release(e.free, ClearOrder(e.books[slot], 0))), slot, how)
  }

  lemma AdmitOk(c: Config, e: Engine, id: nat, symbol: seq<uint8>)
    requires EngineOk(c, e) && id < c.maxSymbols
    ensures var (e', slot, how) := Admit(c, e, id, symbol);
      EngineOk(c, e') && slot < |e'.dir.recs| <= |e'.books| && id in e'.dir.slotOf && e'.dir.slotOf[id] == slot
  {
    hide CacheOk, TrieFits, BooksOk, Access;
    AccessKeepsCache(c, e.dir, id, symbol);
    var (dir, slot, how) := Access(c.capacity, c.maxFrequency, e.dir, id, symbol);
    BooksSize(c, e.books, |e.dir.recs|);
    EmptyShaped(c);
    if !how.Hit? { BooksUpdated(c, e.books, |e.dir.recs|, |dir.recs|, slot, EmptyBook(c.levels)); }
  }

  /** Finding a book, in terms of the directory's access. */
  lemma AdmitUnfold(c: Config, e: Engine, id: nat, symbol: seq<uint8>)
    requires EngineOk(c, e) && id < c.maxSymbols
    ensures e.dir.slotOf.Keys == e.dir.recs.Keys
    ensures var (dir, slot, how) := Access(c.capacity, c.maxFrequency, e.dir, id, symbol);
      && slot < |e.books| && BookShaped(e.books[slot])
      && Admit(c, e, id, symbol) ==
           (if how.Hit? then e.(dir := dir)
            else e.(dir := dir, books := e.books[slot := EmptyBook(c.levels)],
                    free := Release(e.free, ClearOrder(e.books[slot], 0))), slot, how)
  {
    hide Access, BookShaped;
    AccessKeepsCache(c, e.dir, id, symbol);
    BooksSize(c, e.books, |e.dir.recs|);
    BookAt(c, e.books, |e.dir.recs|, Access(c.capacity, c.maxFrequency, e.dir, id, symbol).1);
  }

  lemma EmptyShaped(c: Config)
    requires ConfigOk(c)
    ensures BookShaped(EmptyBook(c.levels)) && |EmptyBook(c.levels).bid.queues| == c.levels
  {
  }

  lemma BooksSize(c: Config, books: seq<Book>, n: nat)
    requires BooksOk(c, books, n)
    ensures |books| == c.capacity
  {
  }

  ghost function Process(c: Config, e: Engine, m: Message): (r: (Engine, Event))
    requires EngineOk(c, e) && |m.symbol| == SYMBOL_LEN
  {
    TrieStep(c, e, m);
    var (trie, id) := TrieSpec.GetOrCreate(c.maxNodes, c.maxBooks, e.trie, Norm(m.symbol));
    var e0 := e.(trie := trie);
    if id >= c.maxSymbols then (e0, Ignored)
    else
      AdmitOk(c, e0, id, m.symbol);
      var (e1, slot, how) := Admit(c, e0, id, m.symbol);
      BookAt(c, e1.books, |e1.dir.recs|, slot);
      var d := Desk(e1.books[slot], e1.free);
      var d' := Serve(d, m);
      (e1.(books := e1.books[slot := d'.book], free := d'.free), Routed(id, how, EffectOf(d, m)))
  }

  /** One message whose symbol has no book. */
  lemma ProcessIgnores(c: Config, e: Engine, m: Message, trie: Trie, id: nat)
    requires EngineOk(c, e) && |m.symbol| == SYMBOL_LEN && id >= c.maxSymbols
    requires (trie, id) == TrieSpec.GetOrCreate(c.maxNodes, c.maxBooks, e.trie, Norm(m.symbol))
    ensures Process(c, e, m) == (e.(trie := trie), Ignored)
  {
    hide TrieSpec.GetOrCreate;
  }

  /** One message that reached the book in a slot. */
  lemma ProcessServes(c: Config, e: Engine, m: Message, trie: Trie, id: nat, found: Engine, slot: nat, how: Admission)
    requires EngineOk(c, e) && |m.symbol| == SYMBOL_LEN && id < c.maxSymbols
    requires (trie, id) == TrieSpec.GetOrCreate(c.maxNodes, c.maxBooks, e.trie, Norm(m.symbol))
    requires EngineOk(c, e.(trie := trie)) && (found, slot, how) == Admit(c, e.(trie := trie), id, m.symbol)
    ensures slot < |found.books| && BookShaped(found.books[slot])
    ensures var d := Serve(Desk(found.books[slot], found.free), m);
      && Process(c, e, m).0 == found.(books := found.books[slot := d.book], free := d.free)
      && Process(c, e, m).1.Routed?
  {
    hide Admit, Serve, EffectOf, TrieSpec.GetOrCreate, CacheOk, TrieFits, BooksOk;
    AdmitOk(c, e.(trie := trie), id, m.symbol);
    BookAt(c, found.books, |found.dir.recs|, slot);
  }

  lemma ProcessOk(c: Config, e: Engine, m: Message)
    requires EngineOk(c, e) && |m.symbol| == SYMBOL_LEN
    ensures EngineOk(c, Process(c, e, m).0)
  {
    hide CacheOk, TrieFits, BooksOk, Admit, EffectOf, Serve, TrieSpec.GetOrCreate;
    TrieStep(c, e, m);
    var (trie, id) := TrieSpec.GetOrCreate(c.maxNodes, c.maxBooks, e.trie, Norm(m.symbol));
    var e0 := e.(trie := trie);
    if id < c.maxSymbols {
      AdmitOk(c, e0, id, m.symbol);
      var (e1, slot, how) := Admit(c, e0, id, m.symbol);
      BookAt(c, e1.books, |e1.dir.recs|, slot);
      BooksSize(c, e1.books, |e1.dir.recs|);
      BooksUpdated(c, e1.books, |e1.dir.recs|, |e1.dir.recs|, slot, Serve(Desk(e1.books[slot], e1.free), m).book);
    }
  }

  lemma TrieStep(c: Config, e: Engine, m: Message)
    requires EngineOk(c, e) && |m.symbol| == SYMBOL_LEN
    ensures EngineOk(c, e.(trie := TrieSpec.GetOrCreate(c.maxNodes, c.maxBooks, e.trie, Norm(m.symbol)).0))
  {
    hide CacheOk, BooksOk, TrieOk, TrieSpec.Insert;
    InsertKeepsTrie(c.maxNodes, c.maxBooks, e.trie, Norm(m.symbol));
  }

  /** The engine after a run of messages, and what each of them did. */
  ghost function Run(c: Config, e: Engine, msgs: seq<Message>): (r: (Engine, seq<Event>))
    requires EngineOk(c, e) && MessagesOk(msgs)
    ensures EngineOk(c, r.0) && |r.1| == |msgs|
    decreases |msgs|
  {
    if msgs == [] then (e, [])
    else
      var (before, trace) := Run(c, e, msgs[..|msgs| - 1]);
      ProcessOk(c, before, msgs[|msgs| - 1]);
      var (after, event) := Process(c, before, msgs[|msgs| - 1]);
      (after, trace + [event])
  }

  lemma InitialEngineOk(c: Config)
    requires ConfigOk(c)
    ensures EngineOk(c, InitialEngine(c))
  {
  }

  /** A run from the start. */
  ghost function History(c: Config, msgs: seq<Message>): (r: (Engine, seq<Event>))
    requires ConfigOk(c) && MessagesOk(msgs)
    ensures EngineOk(c, r.0) && |r.1| == |msgs|
  {
    InitialEngineOk(c);
    Run(c, InitialEngine(c), msgs)
  }

  lemma HistoryOfNone(c: Config)
    requires ConfigOk(c)
    ensures History(c, []).0 == InitialEngine(c)
  {
  }

  lemma HistoryOfMore(c: Config, msgs: seq<Message>, i: nat)
    requires ConfigOk(c) && MessagesOk(msgs) && i < |msgs|
    ensures History(c, msgs[..i + 1]).0 == Process(c, History(c, msgs[..i]).0, msgs[i]).0
  {
    hide EngineOk, Process;
    var more := msgs[..i + 1];
    assert more[..|more| - 1] == msgs[..i] && more[|more| - 1] == msgs[i];
  }
}
