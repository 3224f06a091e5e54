/**
 * The trie on byte strings: which symbols share an id, what a lookup finds after any registrations, and which
 * messages of a run meet in one book.
 */
module Symbols {
  import opened Machine
  import opened TrieSpec
  import opened LfuSpec
  import opened EngineSpec
  import opened EngineTheorems

  /** Two symbols agree at each position, bytes of 128 and more counting as 0. */
  predicate ReadAlike(a: seq<uint8>, b: seq<uint8>)
    requires |a| == |b|
  {
    forall i | 0 <= i < |a| :: (if a[i] >= 128 then 0 else a[i]) == (if b[i] >= 128 then 0 else b[i])
  }

  /** What a lookup of a byte string answers. */
  function IdOf(t: Trie, symbol: seq<uint8>): (id: nat)
    requires |symbol| == SYMBOL_LEN
  {
    TrieSpec.Lookup(t, Norm(symbol))
  }

  /** What looking a byte string up, and inserting it when it is not there, leaves and answers. */
  function Register(maxNodes: nat, maxBooks: nat, t: Trie, symbol: seq<uint8>): (r: (Trie, nat))
    requires |symbol| == SYMBOL_LEN
  {
    TrieSpec.GetOrCreate(maxNodes, maxBooks, t, Norm(symbol))
  }

  lemma PathsAlikeIff(a: seq<uint8>, b: seq<uint8>)
    requires |a| == |b| == SYMBOL_LEN
    ensures Norm(a) == Norm(b) <==> ReadAlike(a, b)
  {
    if Norm(a) == Norm(b) {
      forall i | 0 <= i < SYMBOL_LEN ensures (if a[i] >= 128 then 0 else a[i]) == (if b[i] >= 128 then 0 else b[i]) {
        assert Norm(a)[i] == Norm(b)[i];
      }
    }
  }

  lemma PlainAlike(a: seq<uint8>, b: seq<uint8>)
    requires |a| == |b| && forall i | 0 <= i < |a| :: a[i] < 128 && b[i] < 128
    ensures ReadAlike(a, b) <==> a == b
  {
    if ReadAlike(a, b) { assert forall i | 0 <= i < |a| :: a[i] == b[i]; }
  }

  /** Registered symbols have the same id exactly when they read alike; so for plain ASCII, when they are equal. */
  lemma SameIdIff(t: Trie, a: seq<uint8>, b: seq<uint8>)
    requires TrieOk(t) && |t.ids| <= INVALID_BOOK_ID && |a| == |b| == SYMBOL_LEN && IdOf(t, a) != INVALID_BOOK_ID
    ensures IdOf(t, a) == IdOf(t, b) <==> ReadAlike(a, b)
    ensures (forall i | 0 <= i < SYMBOL_LEN :: a[i] < 128 && b[i] < 128) ==> (IdOf(t, a) == IdOf(t, b) <==> a == b)
  {
    PathsAlikeIff(a, b);
    if forall i | 0 <= i < SYMBOL_LEN :: a[i] < 128 && b[i] < 128 { PlainAlike(a, b); }
  }

  /**
   * A registered symbol keeps its id and changes nothing. A new one gets the next id, which its lookups answer from
   * then on, or the invalid id, which they answered before. Lookups of symbols that do not read alike stay.
   */
  lemma RegisterStores(maxNodes: nat, maxBooks: nat, t: Trie, symbol: seq<uint8>)
    requires TrieOk(t) && |symbol| == SYMBOL_LEN && |t.paths| <= maxNodes && |t.ids| <= maxBooks <= INVALID_BOOK_ID
    ensures var (after, id) := Register(maxNodes, maxBooks, t, symbol);
      && TrieOk(after) && |after.paths| <= maxNodes && |after.ids| <= maxBooks
      && IdOf(after, symbol) == id
      && (IdOf(t, symbol) != INVALID_BOOK_ID ==> after == t && id == IdOf(t, symbol))
      && (IdOf(t, symbol) == INVALID_BOOK_ID ==> id == |t.ids| < maxBooks || id == INVALID_BOOK_ID)
      && forall other: seq<uint8> | |other| == SYMBOL_LEN && !ReadAlike(other, symbol) ::
           IdOf(after, other) == IdOf(t, other)
  {
    var sym := Norm(symbol);
    InsertLookups(maxNodes, maxBooks, t, sym);
    InsertKeepsTrie(maxNodes, maxBooks, t, sym);
    var (after, id) := Register(maxNodes, maxBooks, t, symbol);
    RegisteredIsValid(t, sym);
    if sym !in t.ids { NewIdIsNext(maxNodes, maxBooks, t, sym); }
    forall other: seq<uint8> | |other| == SYMBOL_LEN && !ReadAlike(other, symbol)
      ensures IdOf(after, other) == IdOf(t, other)
    {
      PathsAlikeIff(other, symbol);
    }
  }

  lemma RegisteredIsValid(t: Trie, sym: Path)
    requires TrieOk(t) && |t.ids| <= INVALID_BOOK_ID
    ensures sym in t.ids <==> TrieSpec.Lookup(t, sym) != INVALID_BOOK_ID
  {
  }

  // ---- runs of the trie ----

  /** A run of registrations, and what each of them answered. */
  function RegisterAll(maxNodes: nat, maxBooks: nat, t: Trie, symbols: seq<seq<uint8>>): (r: (Trie, seq<nat>))
    requires forall i | 0 <= i < |symbols| :: |symbols[i]| == SYMBOL_LEN
    ensures |r.1| == |symbols|
    decreases |symbols|
  {
    if symbols == [] then (t, [])
    else
      var (next, id) := Register(maxNodes, maxBooks, t, symbols[0]);
      var (last, ids) := RegisterAll(maxNodes, maxBooks, next, symbols[1..]);
      (last, [id] + ids)
  }

  /** A registered symbol keeps its id over a run. */
  lemma {:induction false} RunKeepsIds(maxNodes: nat, maxBooks: nat, t: Trie, symbols: seq<seq<uint8>>,
                                       symbol: seq<uint8>)
    requires TrieOk(t) && |t.paths| <= maxNodes && |t.ids| <= maxBooks <= INVALID_BOOK_ID
    requires forall i | 0 <= i < |symbols| :: |symbols[i]| == SYMBOL_LEN
    requires |symbol| == SYMBOL_LEN
    ensures var last := RegisterAll(maxNodes, maxBooks, t, symbols).0;
      && TrieOk(last) && |last.ids| <= INVALID_BOOK_ID
      && (IdOf(t, symbol) != INVALID_BOOK_ID ==> IdOf(last, symbol) == IdOf(t, symbol))
    decreases |symbols|
  {
    hide TrieOk, Norm, Register;
    if symbols != [] {
      RegisterStores(maxNodes, maxBooks, t, symbols[0]);
      var next := Register(maxNodes, maxBooks, t, symbols[0]).0;
      RunKeepsIds(maxNodes, maxBooks, next, symbols[1..], symbol);
      if ReadAlike(symbol, symbols[0]) { PathsAlikeIff(symbol, symbols[0]); }
    }
  }

  /** Every valid answer of a run is what a lookup answers at its end. */
  lemma {:induction false} AnswersStand(maxNodes: nat, maxBooks: nat, t: Trie, symbols: seq<seq<uint8>>, k: nat)
    requires TrieOk(t) && |t.paths| <= maxNodes && |t.ids| <= maxBooks <= INVALID_BOOK_ID
    requires forall i | 0 <= i < |symbols| :: |symbols[i]| == SYMBOL_LEN
    requires k < |symbols|
    ensures var (last, ids) := RegisterAll(maxNodes, maxBooks, t, symbols);
      ids[k] != INVALID_BOOK_ID ==> IdOf(last, symbols[k]) == ids[k]
    decreases |symbols|
  {
    hide TrieOk, Norm, Register, IdOf;
    RegisterStores(maxNodes, maxBooks, t, symbols[0]);
    var next := Register(maxNodes, maxBooks, t, symbols[0]).0;
    if k == 0 {
      RunKeepsIds(maxNodes, maxBooks, next, symbols[1..], symbols[0]);
    } else {
      AnswersStand(maxNodes, maxBooks, next, symbols[1..], k - 1);
    }
  }

  /** Over every run, two registrations that succeed answer the same id exactly when their symbols read alike. */
  lemma AnswersSameIff(maxNodes: nat, maxBooks: nat, t: Trie, symbols: seq<seq<uint8>>, j: nat, k: nat)
    requires TrieOk(t) && |t.paths| <= maxNodes && |t.ids| <= maxBooks <= INVALID_BOOK_ID
    requires forall i | 0 <= i < |symbols| :: |symbols[i]| == SYMBOL_LEN
    requires j < |symbols| && k < |symbols|
    ensures var ids := RegisterAll(maxNodes, maxBooks, t, symbols).1;
      ids[j] != INVALID_BOOK_ID && ids[k] != INVALID_BOOK_ID ==>
        (ids[j] == ids[k] <==> ReadAlike(symbols[j], symbols[k]))
  {
    hide TrieOk, Norm, Register, RegisterAll, IdOf, ReadAlike;
    AnswersStand(maxNodes, maxBooks, t, symbols, j);
    AnswersStand(maxNodes, maxBooks, t, symbols, k);
    RunKeepsIds(maxNodes, maxBooks, t, symbols, symbols[j]);
    var (last, ids) := RegisterAll(maxNodes, maxBooks, t, symbols);
    if ids[j] != INVALID_BOOK_ID { SameIdIff(last, symbols[j], symbols[k]); }
  }

  // ---- runs of the engine ----

  /** A message registers its symbol, whatever becomes of it, and one that is served is served under that id. */
  lemma ProcessRegisters(c: Config, e: Engine, m: Message)
    requires EngineOk(c, e) && |m.symbol| == SYMBOL_LEN
    ensures var (e', ev) := Process(c, e, m);
      && (e'.trie, if ev.Routed? then ev.id else Register(c.maxNodes, c.maxBooks, e.trie, m.symbol).1)
           == Register(c.maxNodes, c.maxBooks, e.trie, m.symbol)
      && (ev.Routed? <==> Register(c.maxNodes, c.maxBooks, e.trie, m.symbol).1 < c.maxSymbols)
  {
    hide EngineOk, TrieSpec.GetOrCreate, Serve, EffectOf;
  }

  lemma EngineTrie(c: Config, e: Engine)
    requires EngineOk(c, e)
    ensures TrieOk(e.trie) && |e.trie.paths| <= c.maxNodes && |e.trie.ids| <= c.maxBooks <= INVALID_BOOK_ID
  {
  }

  /** After any run, a lookup of the symbol of a served message answers the id it was served under. */
  lemma {:induction false} ServedIdsStand(c: Config, msgs: seq<Message>, k: nat)
    requires ConfigOk(c) && c.maxSymbols <= INVALID_BOOK_ID && MessagesOk(msgs) && k < |msgs|
    ensures var (e, trace) := History(c, msgs);
      trace[k].Routed? ==> IdOf(e.trie, msgs[k].symbol) == trace[k].id < c.maxSymbols
    decreases |msgs|
  {
    hide Process, EngineOk, Register, IdOf, ReadAlike, TrieOk;
    var n := |msgs| - 1;
    var (e, trace) := History(c, msgs[..n]);
    EngineTrie(c, e);
    ProcessRegisters(c, e, msgs[n]);
    RegisterStores(c.maxNodes, c.maxBooks, e.trie, msgs[n].symbol);
    if k < n {
      ServedIdsStand(c, msgs[..n], k);
      if ReadAlike(msgs[k].symbol, msgs[n].symbol) { AlikeIds(e.trie, msgs[k].symbol, msgs[n].symbol); }
    }
  }

  lemma AlikeIds(t: Trie, a: seq<uint8>, b: seq<uint8>)
    requires |a| == |b| == SYMBOL_LEN && ReadAlike(a, b)
    ensures IdOf(t, a) == IdOf(t, b)
  {
    PathsAlikeIff(a, b);
  }

  /** Over every run, two served messages are for the same book exactly when their symbols read alike. */
  lemma MessagesMeetIff(c: Config, msgs: seq<Message>, j: nat, k: nat)
    requires ConfigOk(c) && c.maxSymbols <= INVALID_BOOK_ID && MessagesOk(msgs) && j < |msgs| && k < |msgs|
    ensures var trace := History(c, msgs).1;
      trace[j].Routed? && trace[k].Routed? ==>
        (trace[j].id == trace[k].id <==> ReadAlike(msgs[j].symbol, msgs[k].symbol))
  {
    hide EngineOk, History, IdOf, ReadAlike, TrieOk;
    ServedIdsStand(c, msgs, j);
    ServedIdsStand(c, msgs, k);
    var (e, trace) := History(c, msgs);
    EngineTrie(c, e);
    if trace[j].Routed? { SameIdIff(e.trie, msgs[j].symbol, msgs[k].symbol); }
  }
}
