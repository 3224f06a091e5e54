/**
 * Cached books replayed from messages. The side, price, id and quantity of every order follow from the message
 * and the replayed book; all that has to be observed is which book a message reached, whether it was cached, and
 * which slot of the shared pool its order was given, if any.
 */
module MessageReplay {
  import opened Machine
  import opened BookSpec
  import opened LfuSpec
  import TrieSpec
  import opened EngineSpec
  import opened EngineTheorems

  /** What a message does to a book that gives it this slot, or none. */
  function EffectOn(b: Book, m: Message, slot: Option<uint32>): (f: Effect) {
    match Route(b, m)
    case Some(Enqueue(isBid, price, id, qty)) =>
      if price >= |SideOf(b, isBid).queues| || slot.None? then Idle
      else Placed(isBid, price, Entry(slot.value, id, qty))
    case Some(Trade(isBid, price, qty)) => Matched(isBid, price, qty)
    case _ => Idle
  }

  function SlotIn(f: Effect): (slot: Option<uint32>) {
    if f.Placed? then Some(f.entry.slot) else None
  }

  lemma EffectIsOn(d: Desk, m: Message)
    ensures EffectOf(d, m) == EffectOn(d.book, m, SlotIn(EffectOf(d, m)))
  {
  }

  datatype Seen = Unserved | Served(id: nat, hit: bool, slot: Option<uint32>)

  function SeenIn(e: Event): (s: Seen) {
    match e
    case Ignored => Unserved
    case Routed(id, how, effect) => Served(id, how.Hit?, SlotIn(effect))
  }

  function SeenAll(trace: seq<Event>): (s: seq<Seen>)
    ensures |s| == |trace|
  {
    seq(|trace|, k requires 0 <= k < |trace| => SeenIn(trace[k]))
  }

  /** The book that the messages for one id, since its last admission, make of an empty one. */
  function ReplayMessages(levels: nat, msgs: seq<Message>, seen: seq<Seen>, id: nat): (b: Book)
    requires 1 <= levels < 0x8000_0000 && |msgs| == |seen|
    ensures BookShaped(b) && |b.bid.queues| == levels
    decreases |msgs|
  {
    if msgs == [] then EmptyBook(levels)
    else
      var n := |msgs| - 1;
      if seen[n].Unserved? || seen[n].id != id then ReplayMessages(levels, msgs[..n], seen[..n], id)
      else
        var b := if seen[n].hit then ReplayMessages(levels, msgs[..n], seen[..n], id) else EmptyBook(levels);
        Apply(b, EffectOn(b, msgs[n], seen[n].slot))
  }

  /** The effect of a message follows from the book it finds. */
  lemma ProcessEffect(c: Config, e: Engine, m: Message)
    requires EngineOk(c, e) && |m.symbol| == TrieSpec.SYMBOL_LEN
    ensures var ev := Process(c, e, m).1;
      ev.Routed? ==>
        && (ev.how.Hit? ==> ev.id in e.dir.slotOf && e.dir.slotOf[ev.id] < |e.books|)
        && var b := if ev.how.Hit? then e.books[e.dir.slotOf[ev.id]] else EmptyBook(c.levels);
           ev.effect == EffectOn(b, m, SlotIn(ev.effect))
  {
    hide BooksOk, TrieFits, BookShaped, DirectoryOk, Serve, EffectOf, EffectOn, TrieSpec.GetOrCreate, Admit;
    TrieStep(c, e, m);
    var (trie, id) := TrieSpec.GetOrCreate(c.maxNodes, c.maxBooks, e.trie, TrieSpec.Norm(m.symbol));
    var e0 := e.(trie := trie);
    if id < c.maxSymbols {
      AdmitUnfold(c, e0, id, m.symbol);
      var (e1, slot, how) := Admit(c, e0, id, m.symbol);
      EffectIsOn(Desk(e1.books[slot], e1.free), m);
    }
  }

  lemma {:induction false} ReplaysAgree(c: Config, msgs: seq<Message>, id: nat)
    requires ConfigOk(c) && MessagesOk(msgs)
    ensures var trace := History(c, msgs).1;
      Replay(c.levels, trace, id) == ReplayMessages(c.levels, msgs, SeenAll(trace), id)
    decreases |msgs|
  {
    hide Process, EngineOk, Apply, EffectOn;
    if msgs != [] {
      var n := |msgs| - 1;
      var (e, rest) := History(c, msgs[..n]);
      var trace := History(c, msgs).1;
      ReplaysAgree(c, msgs[..n], id);
      ProcessEffect(c, e, msgs[n]);
      CachedBooksAreReplays(c, msgs[..n]);
      assert trace == rest + [Process(c, e, msgs[n]).1];
      assert trace[..n] == rest && SeenAll(trace)[..n] == SeenAll(rest);
    }
  }

  /**
   * After any run, a cached book equals the replay on an empty book of only the messages it got since its last
   * admission.
   */
  lemma CachedBooksReplayMessages(c: Config, msgs: seq<Message>, id: nat)
    requires ConfigOk(c) && MessagesOk(msgs)
    ensures var (e, trace) := History(c, msgs);
      id in e.dir.slotOf ==>
        && e.dir.slotOf[id] < |e.books|
        && e.books[e.dir.slotOf[id]] == ReplayMessages(c.levels, msgs, SeenAll(trace), id)
  {
    hide History, Replay, ReplayMessages;
    CachedBooksAreReplays(c, msgs);
    ReplaysAgree(c, msgs, id);
  }

  // ---- the symbol a cached book is filed under ----

  /** The symbol of the message that last brought a book into the cache. */
  function AdmittedAs(msgs: seq<Message>, trace: seq<Event>, id: nat): (symbol: seq<uint8>)
    requires |msgs| == |trace|
    decreases |msgs|
  {
    if msgs == [] then []
    else
      var n := |msgs| - 1;
      if About(trace[n], id) && !trace[n].how.Hit? then msgs[n].symbol else AdmittedAs(msgs[..n], trace[..n], id)
  }

  lemma AccessSymbols(capacity: nat, maxFrequency: nat, d: Directory, id: nat, symbol: seq<uint8>)
    requires d.slotOf.Keys == d.recs.Keys
    ensures var (d', _, how) := Access(capacity, maxFrequency, d, id, symbol);
      forall i | i in d'.recs ::
        d'.recs[i].symbol == if i == id && !how.Hit? then symbol else if i in d.recs then d.recs[i].symbol else []
    ensures var (d', _, how) := Access(capacity, maxFrequency, d, id, symbol);
      forall i | i in d'.recs && !(i == id && !how.Hit?) :: i in d.recs
  {
  }

  /** After any run, each cached book is filed under the symbol of the message that brought it in. */
  lemma {:induction false} SymbolsAreAdmitted(c: Config, msgs: seq<Message>, id: nat)
    requires ConfigOk(c) && MessagesOk(msgs)
    ensures var (e, trace) := History(c, msgs);
      id in e.dir.recs ==> e.dir.recs[id].symbol == AdmittedAs(msgs, trace, id)
    decreases |msgs|
  {
    hide Process, EngineOk, Access;
    if msgs != [] {
      var n := |msgs| - 1;
      var (e, rest) := History(c, msgs[..n]);
      var (after, ev) := Process(c, e, msgs[n]);
      SymbolsAreAdmitted(c, msgs[..n], id);
      ProcessFacts(c, e, msgs[n]);
      if ev.Routed? { AccessSymbols(c.capacity, c.maxFrequency, e.dir, ev.id, msgs[n].symbol); }
      assert History(c, msgs) == (after, rest + [ev]);
      assert (rest + [ev])[..n] == rest;
    }
  }

  // ---- what the loop counts ----

  /** How many messages were served, how many were not, and how many came for a symbol that had no id. */
  datatype Counts = Counts(served: nat, ignored: nat, unknown: nat)

  ghost function CountsOf(c: Config, msgs: seq<Message>): (n: Counts)
    requires ConfigOk(c) && MessagesOk(msgs)
    decreases |msgs|
  {
    if msgs == [] then Counts(0, 0, 0)
    else
      var i := |msgs| - 1;
      var before, e := CountsOf(c, msgs[..i]), History(c, msgs[..i]).0;
      var known := TrieSpec.Norm(msgs[i].symbol) in e.trie.ids;
      var served := Process(c, e, msgs[i]).1.Routed?;
      Counts(before.served + (if served then 1 else 0), before.ignored + (if served then 0 else 1),
             before.unknown + (if known then 0 else 1))
  }

  lemma {:induction false} CountsTell(c: Config, msgs: seq<Message>)
    requires ConfigOk(c) && MessagesOk(msgs)
    ensures CountsOf(c, msgs).served == Accesses(History(c, msgs).1)
    ensures CountsOf(c, msgs).served + CountsOf(c, msgs).ignored == |msgs|
    decreases |msgs|
  {
    hide Process, EngineOk;
    if msgs != [] {
      var n := |msgs| - 1;
      var (e, rest) := History(c, msgs[..n]);
      var ev := Process(c, e, msgs[n]).1;
      CountsTell(c, msgs[..n]);
      assert History(c, msgs).1 == rest + [ev] && (rest + [ev])[..n] == rest;
    }
  }
}
