/** What holds after every run of messages, told from the history of what each message did. */
module EngineTheorems {
  import opened Machine
  import opened Bits
  import opened Pool
  import opened QueueLinks
  import opened RangeSums
  import opened VolumeBounds
  import opened BookSpec
  import opened BookTheorems
  import opened LfuSpec
  import opened TrieSpec
  import opened EngineSpec

  // ---- histories ----

  predicate About(e: Event, id: nat) {
    e.Routed? && e.id == id
  }

  /** One effect on a book alone. */
  function Apply(b: Book, f: Effect): (r: Book)
    requires BookShaped(b)
    ensures BookShaped(r) && |r.bid.queues| == |b.bid.queues|
  {
    match f
    case Placed(isBid, price, entry) =>
      if price < |b.bid.queues| then WithSide(b, isBid, AddSide(isBid, SideOf(b, isBid), price, entry)) else b
    case Matched(isBid, price, qty) =>
      if price < |b.bid.queues| then WithSide(b, isBid, TradeSide(Lifting, isBid, SideOf(b, isBid), price, qty).side)
      else b
    case Idle => b
  }

  /** The book that the messages of one id alone, since its last admission, make of an empty one. */
  function Replay(levels: nat, trace: seq<Event>, id: nat): (b: Book)
    requires 1 <= levels < 0x8000_0000
    ensures BookShaped(b) && |b.bid.queues| == levels
    decreases |trace|
  {
    if trace == [] then EmptyBook(levels)
    else
      var last, rest := trace[|trace| - 1], trace[..|trace| - 1];
      if !About(last, id) then Replay(levels, rest, id)
      else Apply(if last.how.Hit? then Replay(levels, rest, id) else EmptyBook(levels), last.effect)
  }

  /** How many messages have reached a book, cached or not. */
  function Accesses(trace: seq<Event>): (n: nat) {
    if trace == [] then 0
    else (if trace[|trace| - 1].Routed? then 1 else 0) + Accesses(trace[..|trace| - 1])
  }

  /** How many messages have reached this book since its last admission. */
  function Uses(trace: seq<Event>, id: nat): (n: nat) {
    if trace == [] then 0
    else
      var last, rest := trace[|trace| - 1], trace[..|trace| - 1];
      if !About(last, id) then Uses(rest, id)
      else 1 + (if last.how.Hit? then Uses(rest, id) else 0)
  }

  /** When the last message that reached this book came, in accesses from the start. */
  function LastUse(trace: seq<Event>, id: nat): (n: nat) {
    if trace == [] then 0
    else
      var last, rest := trace[|trace| - 1], trace[..|trace| - 1];
      if About(last, id) then Accesses(rest) else LastUse(rest, id)
  }

  function Misses(trace: seq<Event>): (n: nat) {
    if trace == [] then 0
    else (if trace[|trace| - 1].Routed? && !trace[|trace| - 1].how.Hit? then 1 else 0) + Misses(trace[..|trace| - 1])
  }

  function Evictions(trace: seq<Event>): (n: nat) {
    if trace == [] then 0
    else
      var last := trace[|trace| - 1];
      (if last.Routed? && last.how.Replaced? then 1 else 0) + Evictions(trace[..|trace| - 1])
  }

  // ---- one step ----

  /** Serving a message is its effect on the book. */
  lemma ServeIsEffect(d: Desk, m: Message)
    requires BookShaped(d.book)
    ensures Serve(d, m).book == Apply(d.book, EffectOf(d, m))
  {
  }

  /** What finding a book does to directory and books. */
  lemma AdmitShape(c: Config, e: Engine, id: nat, symbol: seq<uint8>)
    requires EngineOk(c, e) && id < c.maxSymbols
    ensures e.dir.slotOf.Keys == e.dir.recs.Keys
    ensures var (e', slot, how) := Admit(c, e, id, symbol);
      && (e'.dir, slot, how) == Access(c.capacity, c.maxFrequency, e.dir, id, symbol)
      && EngineOk(c, e') && e'.dir.slotOf.Keys == e'.dir.recs.Keys
      && id in e'.dir.slotOf && e'.dir.slotOf[id] == slot < |e.books| == |e'.books|
      && BookShaped(e.books[slot]) && |e.books[slot].bid.queues| == c.levels && BookShaped(e'.books[slot])
      && e'.books == e.books[slot := if how.Hit? then e.books[slot] else EmptyBook(c.levels)]
  {
    hide Access, BooksOk, CacheOk, TrieFits, BookShaped;
    AdmitOk(c, e, id, symbol);
    AccessKeepsCache(c, e.dir, id, symbol);
    BooksSize(c, e.books, |e.dir.recs|);
    var (e', slot, how) := Admit(c, e, id, symbol);
    BooksSize(c, e'.books, |e'.dir.recs|);
    BookAt(c, e.books, |e.dir.recs|, slot);
    BookAt(c, e'.books, |e'.dir.recs|, slot);
  }

  /** What one message does to directory and books, in the terms of its event. */
  ghost predicate StepTold(c: Config, e: Engine, symbol: seq<uint8>, e': Engine, ev: Event)
    requires e.dir.slotOf.Keys == e.dir.recs.Keys
  {
    && |e'.books| == |e.books|
    && match ev
       case Ignored => e'.dir == e.dir && e'.books == e.books && e'.free == e.free
       case Routed(id, how, effect) =>
         && id < c.maxSymbols
         && (var a := Access(c.capacity, c.maxFrequency, e.dir, id, symbol); e'.dir == a.0 && how == a.2)
         && id in e'.dir.slotOf
         && var slot := e'.dir.slotOf[id];
            && slot < |e.books| && BookShaped(e.books[slot]) && |e.books[slot].bid.queues| == c.levels
            && (how.Hit? || 1 <= c.levels < 0x8000_0000)
            && e'.books == e.books[slot := Apply(if how.Hit? then e.books[slot] else EmptyBook(c.levels), effect)]
  }

  lemma ProcessFacts(c: Config, e: Engine, m: Message)
    requires EngineOk(c, e) && |m.symbol| == SYMBOL_LEN
    ensures e.dir.slotOf.Keys == e.dir.recs.Keys
    ensures var (e', ev) := Process(c, e, m); StepTold(c, e, m.symbol, e', ev)
  {
    hide BooksOk, TrieFits, Apply, Serve, EffectOf, TrieSpec.GetOrCreate, Access, Admit, BookShaped;
    TrieStep(c, e, m);
    var (trie, id) := TrieSpec.GetOrCreate(c.maxNodes, c.maxBooks, e.trie, Norm(m.symbol));
    var e0 := e.(trie := trie);
    if id < c.maxSymbols {
      AdmitShape(c, e0, id, m.symbol);
      var (e1, slot, how) := Admit(c, e0, id, m.symbol);
      ServeIsEffect(Desk(e1.books[slot], e1.free), m);
    }
  }

  // ---- a cached book is the replay of its own messages ----

  ghost predicate BooksReplayed(c: Config, e: Engine, trace: seq<Event>)
    requires 1 <= c.levels < 0x8000_0000
  {
    forall i | i in e.dir.slotOf ::
      e.dir.slotOf[i] < |e.books| && e.books[e.dir.slotOf[i]] == Replay(c.levels, trace, i)
  }

  lemma ProcessReplays(c: Config, e: Engine, m: Message, trace: seq<Event>)
    requires EngineOk(c, e) && |m.symbol| == SYMBOL_LEN && BooksReplayed(c, e, trace)
    ensures var (e', ev) := Process(c, e, m); BooksReplayed(c, e', trace + [ev])
  {
    hide Apply, Process, BooksOk, TrieFits, Access;
    ProcessFacts(c, e, m);
    var (e', ev) := Process(c, e, m);
    var longer := trace + [ev];
    assert longer[..|longer| - 1] == trace;
    if ev.Routed? {
      AccessKeepsDirectory(c.capacity, c.maxFrequency, e.dir, ev.id, m.symbol);
      var slot := e'.dir.slotOf[ev.id];
      forall i | i in e'.dir.slotOf
        ensures e'.dir.slotOf[i] < |e'.books| && e'.books[e'.dir.slotOf[i]] == Replay(c.levels, longer, i)
      {
        if i != ev.id { assert i in e.dir.slotOf && e'.dir.slotOf[i] == e.dir.slotOf[i] != slot; }
      }
    }
  }

  /**
   * After any run, a cached book holds exactly what its own messages since its last admission make of an
   * empty book: no message for another book sharing the pool has touched it, and an evicted book that
   * comes back starts empty.
   */
  lemma {:induction false} CachedBooksAreReplays(c: Config, msgs: seq<Message>)
    requires ConfigOk(c) && MessagesOk(msgs)
    ensures var (e, trace) := History(c, msgs); BooksReplayed(c, e, trace)
    decreases |msgs|
  {
    hide Process, EngineOk;
    if msgs != [] {
      var (e, trace) := History(c, msgs[..|msgs| - 1]);
      CachedBooksAreReplays(c, msgs[..|msgs| - 1]);
      ProcessReplays(c, e, msgs[|msgs| - 1], trace);
    }
  }

  // ---- the directory tells the history ----

  ghost predicate DirectoryTells(d: Directory, trace: seq<Event>) {
    && (forall i | i in d.recs :: d.recs[i].count == Uses(trace, i) && d.recs[i].last == LastUse(trace, i))
    && d.clock == Accesses(trace) && d.misses == Misses(trace) && d.evictions == Evictions(trace)
  }

  lemma AccessTells(capacity: nat, maxFrequency: nat, d: Directory, id: nat, symbol: seq<uint8>, trace: seq<Event>,
                    f: Effect)
    requires capacity >= 1 && DirectoryOk(capacity, d) && DirectoryTells(d, trace)
    ensures var (d', slot, how) := Access(capacity, maxFrequency, d, id, symbol);
      DirectoryTells(d', trace + [Routed(id, how, f)])
  {
    hide SlotsOk, TimesOk;
    var (d', slot, how) := Access(capacity, maxFrequency, d, id, symbol);
    var longer := trace + [Routed(id, how, f)];
    assert longer[..|longer| - 1] == trace;
    forall i | i in d'.recs ensures d'.recs[i].count == Uses(longer, i) && d'.recs[i].last == LastUse(longer, i) {
      if i != id { assert i in d.recs && d'.recs[i] == d.recs[i]; }
    }
  }

  lemma {:induction false} DirectoryIsHistory(c: Config, msgs: seq<Message>)
    requires ConfigOk(c) && MessagesOk(msgs)
    ensures var (e, trace) := History(c, msgs); DirectoryTells(e.dir, trace)
    decreases |msgs|
  {
    hide Process, DirectoryOk, DirectoryTells, BooksOk, TrieFits, Access;
    if msgs == [] {
      NothingTold();
    } else {
      var (e, trace) := History(c, msgs[..|msgs| - 1]);
      DirectoryIsHistory(c, msgs[..|msgs| - 1]);
      ProcessFacts(c, e, msgs[|msgs| - 1]);
      var (e', ev) := Process(c, e, msgs[|msgs| - 1]);
      if ev.Routed? {
        AccessTells(c.capacity, c.maxFrequency, e.dir, ev.id, msgs[|msgs| - 1].symbol, trace, ev.effect);
      } else {
        IgnoredTells(e.dir, trace);
      }
    }
  }

  lemma NothingTold()
    ensures DirectoryTells(EmptyDirectory(), [])
  {
  }

  lemma IgnoredTells(d: Directory, trace: seq<Event>)
    requires DirectoryTells(d, trace)
    ensures DirectoryTells(d, trace + [Ignored])
  {
  }

  /** v is used less than j, or as much but longer ago, as far as the tracked frequency can tell. */
  predicate UsedLess(maxFrequency: nat, trace: seq<Event>, v: nat, j: nat) {
    var a, b := Min(Uses(trace, v), maxFrequency - 1), Min(Uses(trace, j), maxFrequency - 1);
    a < b || (a == b && LastUse(trace, v) < LastUse(trace, j))
  }

  /**
   * Eviction order over all runs: a full cache that misses gives up, of all cached books, the one least in
   * (tracked number of uses since admission, time of last use); a cache with room evicts nobody.
   */
  lemma EvictionIsLeastUsed(c: Config, msgs: seq<Message>, m: Message)
    requires ConfigOk(c) && MessagesOk(msgs)
    requires |m.symbol| == SYMBOL_LEN
    ensures var (e, trace) := History(c, msgs);
      var (e', ev) := Process(c, e, m);
      ev.Routed? ==>
        && (ev.how.Hit? <==> ev.id in e.dir.recs)
        && (ev.how.Replaced? <==> ev.id !in e.dir.recs && |e.dir.recs| == c.capacity)
        && (ev.how.Replaced? ==>
              && ev.how.victim in e.dir.recs && ev.how.victim !in e'.dir.recs
              && forall j | j in e.dir.recs && j != ev.how.victim :: UsedLess(c.maxFrequency, trace, ev.how.victim, j))
  {
    hide Process, BooksOk, TrieFits, Access, EngineSpec.Run, DirectoryTells, DirectoryOk, UsedLess;
    var (e, trace) := History(c, msgs);
    DirectoryIsHistory(c, msgs);
    ProcessFacts(c, e, m);
    var (e', ev) := Process(c, e, m);
    if ev.Routed? {
      WhichAdmission(c.capacity, c.maxFrequency, e.dir, ev.id, m.symbol);
      if ev.how.Replaced? { VictimUsedLeast(c.maxFrequency, e.dir, trace, ev.how.victim); }
    }
  }

  lemma VictimUsedLeast(maxFrequency: nat, d: Directory, trace: seq<Event>, v: nat)
    requires IsVictim(maxFrequency, d.recs, v) && DirectoryTells(d, trace)
    ensures forall j | j in d.recs && j != v :: UsedLess(maxFrequency, trace, v, j)
  {
  }

  lemma WhichAdmission(capacity: nat, maxFrequency: nat, d: Directory, id: nat, symbol: seq<uint8>)
    requires capacity >= 1 && DirectoryOk(capacity, d)
    ensures var (d', slot, how) := Access(capacity, maxFrequency, d, id, symbol);
      && (how.Hit? <==> id in d.recs)
      && (how.Replaced? <==> id !in d.recs && |d.recs| == capacity)
      && (how.Replaced? ==>
            IsVictim(maxFrequency, d.recs, how.victim) && how.victim in d.recs && how.victim !in d'.recs)
  {
    hide SlotsOk, TimesOk;
    AccessKeepsDirectory(capacity, maxFrequency, d, id, symbol);
  }

  /** Over any run: misses are cached books plus evictions, and every access is a hit or a miss. */
  lemma MissesAccounted(c: Config, msgs: seq<Message>)
    requires ConfigOk(c) && MessagesOk(msgs)
    ensures var (e, trace) := History(c, msgs);
      Misses(trace) == |e.dir.recs| + Evictions(trace) && |e.dir.recs| <= c.capacity
  {
    hide EngineSpec.Run, BooksOk, TrieFits;
    DirectoryIsHistory(c, msgs);
  }

  // ---- best prices of every cached book ----

  ghost predicate WeakBook(b: Book) {
    NoVolumeBeyond(true, b.bid) && NoVolumeBeyond(false, b.ask)
  }

  lemma ApplyKeepsWeak(b: Book, f: Effect)
    requires BookShaped(b) && WeakBook(b)
    ensures WeakBook(Apply(b, f))
  {
    match f
    case Placed(isBid, price, entry) =>
      if price < |b.bid.queues| { AddKeepsBeyond(isBid, SideOf(b, isBid), price, entry); }
    case Matched(isBid, price, qty) =>
      if price < |b.bid.queues| { TradeKeepsBeyond(Lifting, isBid, SideOf(b, isBid), price, qty); }
    case Idle =>
  }

  lemma {:induction false} ReplayIsWeak(levels: nat, trace: seq<Event>, id: nat)
    requires 1 <= levels < 0x8000_0000
    ensures WeakBook(Replay(levels, trace, id))
    decreases |trace|
  {
    hide Apply, WeakBook;
    EmptyIsWeak(levels);
    if trace != [] {
      var last, rest := trace[|trace| - 1], trace[..|trace| - 1];
      ReplayIsWeak(levels, rest, id);
      if About(last, id) {
        ApplyKeepsWeak(if last.how.Hit? then Replay(levels, rest, id) else EmptyBook(levels), last.effect);
      }
    }
  }

  lemma EmptyIsWeak(levels: nat)
    ensures WeakBook(EmptyBook(levels))
  {
  }

  /** In every reachable state no cached book has volume beyond its best prices, whatever was sent. */
  lemma NoCachedBookMissesVolume(c: Config, msgs: seq<Message>)
    requires ConfigOk(c) && MessagesOk(msgs)
    ensures var e := History(c, msgs).0;
      forall i | i in e.dir.slotOf :: e.dir.slotOf[i] < |e.books| && WeakBook(e.books[e.dir.slotOf[i]])
  {
    hide EngineSpec.Run, WeakBook, BooksOk, TrieFits, CacheOk;
    var (e, trace) := History(c, msgs);
    CachedBooksAreReplays(c, msgs);
    forall i | i in e.dir.slotOf ensures e.dir.slotOf[i] < |e.books| && WeakBook(e.books[e.dir.slotOf[i]]) {
      ReplayIsWeak(c.levels, trace, i);
    }
  }

  /** What a caller can check before each add: a placed order fits its total and does not make a hollow best price. */
  predicate SafeEffect(b: Book, f: Effect)
    requires BookShaped(b)
  {
    f.Placed? && f.price < |b.bid.queues| ==> SoundAdd(f.isBid, SideOf(b, f.isBid), f.price, f.entry.qty)
  }

  /** Every message for a book since its last admission was safe when it came. */
  predicate SafeHistory(levels: nat, trace: seq<Event>, id: nat)
    requires 1 <= levels < 0x8000_0000
    decreases |trace|
  {
    trace == [] ||
    var last, rest := trace[|trace| - 1], trace[..|trace| - 1];
    if !About(last, id) then SafeHistory(levels, rest, id)
    else if last.how.Hit? then SafeHistory(levels, rest, id) && SafeEffect(Replay(levels, rest, id), last.effect)
    else SafeEffect(EmptyBook(levels), last.effect)
  }

  /** The book was exact after each of its messages since its last admission. */
  ghost predicate ExactHistory(levels: nat, trace: seq<Event>, id: nat)
    requires 1 <= levels < 0x8000_0000
    decreases |trace|
  {
    && BookExact(Replay(levels, trace, id))
    && (trace == [] ||
        var last, rest := trace[|trace| - 1], trace[..|trace| - 1];
        (About(last, id) && !last.how.Hit?) || ExactHistory(levels, rest, id))
  }

  lemma ApplyKeepsExactIff(b: Book, f: Effect)
    requires BookExact(b)
    ensures BookExact(Apply(b, f)) <==> SafeEffect(b, f)
  {
    hide Exact, SoundAdd, AddSide, TradeSide;
    match f
    case Placed(isBid, price, entry) =>
      if price < |b.bid.queues| { AddKeepsExactIff(isBid, SideOf(b, isBid), price, entry); }
    case Matched(isBid, price, qty) =>
      if price < |b.bid.queues| { TradeKeepsExact(Lifting, isBid, SideOf(b, isBid), price, qty); }
    case Idle =>
  }

  lemma {:induction false} ExactHistoryIff(levels: nat, trace: seq<Event>, id: nat)
    requires 1 <= levels < 0x8000_0000
    ensures ExactHistory(levels, trace, id) <==> SafeHistory(levels, trace, id)
    ensures ExactHistory(levels, trace, id) ==> BookExact(Replay(levels, trace, id))
    decreases |trace|
  {
    hide Apply, BookExact, SafeEffect;
    EmptyIsExact(levels);
    if trace != [] {
      var last, rest := trace[|trace| - 1], trace[..|trace| - 1];
      ExactHistoryIff(levels, rest, id);
      if About(last, id) {
        if !last.how.Hit? {
          ApplyKeepsExactIff(EmptyBook(levels), last.effect);
        } else if ExactHistory(levels, rest, id) {
          ApplyKeepsExactIff(Replay(levels, rest, id), last.effect);
        }
      }
    }
  }

  /**
   * In every reachable state a cached book has had exact totals and best prices ever since its admission
   * precisely when its own adds were safe; other books' messages do not matter.
   */
  lemma BooksExactIffSafe(c: Config, msgs: seq<Message>, id: nat)
    requires ConfigOk(c) && MessagesOk(msgs)
    ensures var (e, trace) := History(c, msgs);
      id in e.dir.slotOf ==>
        && e.dir.slotOf[id] < |e.books| && e.books[e.dir.slotOf[id]] == Replay(c.levels, trace, id)
        && (ExactHistory(c.levels, trace, id) <==> SafeHistory(c.levels, trace, id))
        && (SafeHistory(c.levels, trace, id) ==> BookExact(e.books[e.dir.slotOf[id]]))
  {
    hide EngineSpec.Run, BookExact, BooksOk, TrieFits, CacheOk, SafeHistory, ExactHistory;
    var (e, trace) := History(c, msgs);
    CachedBooksAreReplays(c, msgs);
    ExactHistoryIff(c.levels, trace, id);
  }

  // ---- as built ----

  /** With the built number of prices, a walk of a volume tree takes at most 17 steps. */
  lemma BuiltSteps()
    ensures ConfigOk(BUILT) && Log2(BUILT.levels) + 1 == 17
  {
    assert Pow2(4) == 16;
    assert Pow2(8) == 16 * Pow2(4);
    assert Pow2(12) == 16 * Pow2(8);
    assert Pow2(16) == 16 * Pow2(12);
    assert Pow2(17) == 2 * Pow2(16);
    if Log2(100000) < 16 { Pow2Grows(Log2(100000) + 1, 16); }
    if Log2(100000) > 16 { Pow2Grows(17, Log2(100000)); }
  }

  /** With the built number of orders, no range of a side's volumes gets anywhere near the end of int64. */
  lemma BuiltVolumes(orders: seq<Order>, owner: seq<nat>, tag: nat, isBid: bool,
                     queues: seq<Queue>, head: seq<uint32>, tail: seq<uint32>)
    requires SideOk(orders, owner, tag, isBid, queues, head, tail) && |orders| == BUILT.maxOrders
    ensures forall lo, hi | 0 <= lo <= hi <= |queues| :: 0 <= Sum(Volumes(queues), lo, hi) < 0x10_0000_0000_0000
  {
    VolumesFit(orders, owner, tag, isBid, queues, head, tail);
  }

  // ---- what does not hold ----

  /** Two adds to an empty book, at 100 and then at 60, leave it with a best ask below its best bid. */
  lemma BooksCanCross()
    ensures var d := Desk(EmptyBook(1000), [0, 1]);
      var first := Message('A', [65, 65, 65, 65, 65, 65, 65, 65], 1, 100, 10);
      var second := Message('A', [65, 65, 65, 65, 65, 65, 65, 65], 2, 60, 10);
      var b := Serve(Serve(d, first), second).book;
      b.bid.best == 100 && b.ask.best == 60
  {
  }

  // ---- routing ----

  /** Over any run a symbol that has an id keeps it, so its messages keep reaching the same book id. */
  lemma {:induction false} RoutesAreStable(c: Config, e: Engine, msgs: seq<Message>)
    requires EngineOk(c, e) && MessagesOk(msgs)
    ensures forall p | p in e.trie.ids ::
      var t := EngineSpec.Run(c, e, msgs).0.trie; p in t.ids && t.ids[p] == e.trie.ids[p]
    decreases |msgs|
  {
    hide EngineOk, TrieSpec.GetOrCreate;
    if msgs != [] {
      RoutesAreStable(c, e, msgs[..|msgs| - 1]);
      var before := EngineSpec.Run(c, e, msgs[..|msgs| - 1]).0;
      var m := msgs[|msgs| - 1];
      forall p | p in before.trie.ids
        ensures p in Process(c, before, m).0.trie.ids && Process(c, before, m).0.trie.ids[p] == before.trie.ids[p]
      {
        IdsGrow(c.maxNodes, c.maxBooks, before.trie, Norm(m.symbol), p);
      }
    }
  }

  /**
   * Which messages are ignored: those of a symbol whose id the cache has no room for, and those of a new
   * symbol when the nodes for its path, the ids of the trie or the ids of the cache have run out.
   */
  lemma IgnoredIff(c: Config, e: Engine, m: Message)
    requires EngineOk(c, e) && |m.symbol| == SYMBOL_LEN && c.maxSymbols <= INVALID_BOOK_ID
    ensures var sym, t := Norm(m.symbol), e.trie;
      Process(c, e, m).1.Ignored? <==>
        if sym in t.ids then t.ids[sym] >= c.maxSymbols
        else |t.paths| + Missing(t.paths, sym, 0) > c.maxNodes || |t.ids| >= Min(c.maxBooks, c.maxSymbols)
  {
    hide CacheOk, BooksOk, TrieOk, Admit, Serve, EffectOf, Missing, TrieSpec.Insert;
    var sym := Norm(m.symbol);
    InsertFailsIff(c.maxNodes, c.maxBooks, e.trie, sym);
    if sym !in e.trie.ids { NewIdIsNext(c.maxNodes, c.maxBooks, e.trie, sym); }
  }

  lemma NewIdIsNext(maxNodes: nat, maxBooks: nat, t: Trie, sym: Path)
    requires sym !in t.ids
    ensures var id := TrieSpec.Insert(maxNodes, maxBooks, t, sym).1; id == INVALID_BOOK_ID || id == |t.ids|
  {
  }

  /**
   * Symbols registered after the cache's id range is used up are never served: every later message for
   * such a symbol is ignored, whatever comes in between.
   */
  lemma LateSymbolsAreDropped(c: Config, e: Engine, msgs: seq<Message>, m: Message)
    requires EngineOk(c, e) && MessagesOk(msgs)
    requires |m.symbol| == SYMBOL_LEN && Norm(m.symbol) in e.trie.ids && e.trie.ids[Norm(m.symbol)] >= c.maxSymbols
    ensures var after := EngineSpec.Run(c, e, msgs).0; Process(c, after, m) == (after, Ignored)
  {
    hide EngineOk, EngineSpec.Run;
    RoutesAreStable(c, e, msgs);
  }
}
