/** With the built capacities, more symbols can be registered than the cache can serve. */
module Registration {
  import opened Machine
  import opened TrieSpec
  import opened EngineSpec
  import opened EngineTheorems

  /** Symbols that differ in their last two bytes. */
  function NthSymbol(i: nat): (s: seq<uint8>)
    requires i < ALPHABET_SIZE * ALPHABET_SIZE
    ensures |s| == SYMBOL_LEN
  {
    [0, 0, 0, 0, 0, 0, i / ALPHABET_SIZE, i % ALPHABET_SIZE]
  }

  function NthPath(i: nat): (p: Path)
    requires i < ALPHABET_SIZE * ALPHABET_SIZE
    ensures |p| == SYMBOL_LEN
  {
    Norm(NthSymbol(i))
  }

  function Arrivals(n: nat): (msgs: seq<Message>)
    requires n <= ALPHABET_SIZE * ALPHABET_SIZE
    ensures |msgs| == n && MessagesOk(msgs)
  {
    seq(n, i requires 0 <= i < n => Message('A', NthSymbol(i), 0, 1, 1))
  }

  lemma PathsDiffer(i: nat, j: nat)
    requires i < j < ALPHABET_SIZE * ALPHABET_SIZE
    ensures NthPath(i) != NthPath(j)
  {
    assert NthPath(i)[6] == i / ALPHABET_SIZE && NthPath(i)[7] == i % ALPHABET_SIZE;
    assert NthPath(j)[6] == j / ALPHABET_SIZE && NthPath(j)[7] == j % ALPHABET_SIZE;
  }

  lemma {:induction false} GrowAdds(maxNodes: nat, paths: seq<Path>, sym: Path, i: nat)
    requires i <= |sym| && Grow(maxNodes, paths, sym, i).1
    ensures |Grow(maxNodes, paths, sym, i).0| == |paths| + Missing(paths, sym, i)
    decreases |sym| - i
  {
    if i < |sym| {
      if sym[..i + 1] in paths {
        GrowAdds(maxNodes, paths, sym, i + 1);
      } else {
        GrowAdds(maxNodes, paths + [sym[..i + 1]], sym, i + 1);
        MissingShorter(paths, sym, i + 1, sym[..i + 1]);
      }
    }
  }

  lemma {:induction false} MissingAtMost(paths: seq<Path>, sym: Path, i: nat)
    requires i <= |sym|
    ensures Missing(paths, sym, i) <= |sym| - i
    decreases |sym| - i
  {
    if i < |sym| { MissingAtMost(paths, sym, i + 1); }
  }

  /** Only what lies beyond a present prefix can be missing. */
  lemma {:induction false} MissingBeyond(paths: seq<Path>, sym: Path, i: nat, k: nat)
    requires PathsOk(paths) && i <= k <= |sym| && sym[..k] in paths
    ensures Missing(paths, sym, i) <= |sym| - k
    decreases k - i
  {
    hide PathsOk;
    if i == k {
      MissingAtMost(paths, sym, i);
    } else {
      PrefixesPresent(paths, sym[..k], i + 1);
      assert sym[..k][..i + 1] == sym[..i + 1];
      MissingBeyond(paths, sym, i + 1, k);
    }
  }

  /** The trie after the first n of the symbols: they have the ids 0 to n - 1, and most of their paths in common. */
  ghost predicate FirstRegistered(t: Trie, n: nat)
    requires n <= ALPHABET_SIZE * ALPHABET_SIZE
  {
    && TrieOk(t) && |t.ids| == n && |t.paths| <= (if n == 0 then 1 else 7 + 2 * n)
    && (n > 0 ==> NthPath(0)[..6] in t.paths)
    && (forall p | p in t.ids :: t.ids[p] < n && p == NthPath(t.ids[p]))
  }

  lemma NextIsNew(t: Trie, n: nat)
    requires n < ALPHABET_SIZE * ALPHABET_SIZE && FirstRegistered(t, n)
    ensures NthPath(n) !in t.ids && NthPath(n)[..6] == NthPath(0)[..6]
  {
    if NthPath(n) in t.ids { PathsDiffer(t.ids[NthPath(n)], n); }
  }

  /** The next symbol is missing at most 8 nodes if it is the first, and at most 2 otherwise. */
  lemma NextFits(t: Trie, n: nat, maxNodes: nat)
    requires n < ALPHABET_SIZE * ALPHABET_SIZE && FirstRegistered(t, n) && 9 + 2 * n <= maxNodes
    ensures Grow(maxNodes, t.paths, NthPath(n), 0).1
    ensures |Grow(maxNodes, t.paths, NthPath(n), 0).0| <= 9 + 2 * n
    ensures NthPath(n) in Grow(maxNodes, t.paths, NthPath(n), 0).0
  {
    hide NthPath, Grow, Missing;
    NextIsNew(t, n);
    var sym := NthPath(n);
    if n > 0 { MissingBeyond(t.paths, sym, 0, 6); } else { MissingAtMost(t.paths, sym, 0); }
    GrowSucceedsIff(maxNodes, t.paths, sym, 0);
    GrowAdds(maxNodes, t.paths, sym, 0);
    RootPresent(t, sym);
    GrowKeepsPaths(maxNodes, t.paths, sym, 0);
  }

  lemma NextRegistered(t: Trie, n: nat, maxNodes: nat, maxBooks: nat)
    requires n < ALPHABET_SIZE * ALPHABET_SIZE && FirstRegistered(t, n)
    requires n < maxBooks && 9 + 2 * n <= maxNodes
    ensures var after := TrieSpec.GetOrCreate(maxNodes, maxBooks, t, NthPath(n)).0;
      FirstRegistered(after, n + 1) && NthPath(n) in after.ids && after.ids[NthPath(n)] == n
  {
    hide NthPath, Grow, TrieOk, PathsOk;
    NextIsNew(t, n);
    NextFits(t, n, maxNodes);
    InsertKeepsTrie(maxNodes, maxBooks, t, NthPath(n));
    var after := TrieSpec.GetOrCreate(maxNodes, maxBooks, t, NthPath(n)).0;
    PathsOfTrie(after);
    PrefixesPresent(after.paths, NthPath(n), 6);
  }

  lemma PathsOfTrie(t: Trie)
    requires TrieOk(t)
    ensures PathsOk(t.paths)
  {
  }

  lemma NoneRegistered()
    ensures FirstRegistered(EMPTY_TRIE, 0)
  {
  }

  lemma ProcessTrie(c: Config, e: Engine, m: Message)
    requires EngineOk(c, e) && |m.symbol| == SYMBOL_LEN
    ensures Process(c, e, m).0.trie == TrieSpec.GetOrCreate(c.maxNodes, c.maxBooks, e.trie, Norm(m.symbol)).0
  {
    hide EngineOk, TrieSpec.GetOrCreate, Serve, EffectOf;
  }

  lemma {:induction false} FirstMessages(n: nat)
    requires n <= 1000
    ensures var t := History(BUILT, Arrivals(n)).0.trie;
      FirstRegistered(t, n) && (n > 0 ==> NthPath(n - 1) in t.ids && t.ids[NthPath(n - 1)] == n - 1)
  {
    hide History, Process, EngineOk, FirstRegistered, NthPath, TrieSpec.GetOrCreate;
    if n == 0 {
      HistoryOfNone(BUILT);
      NoneRegistered();
      assert Arrivals(0) == [];
    } else {
      FirstMessages(n - 1);
      var msgs := Arrivals(n);
      assert msgs[..n - 1] == Arrivals(n - 1) && msgs[..n] == msgs;
      HistoryOfMore(BUILT, msgs, n - 1);
      var e := History(BUILT, Arrivals(n - 1)).0;
      ProcessTrie(BUILT, e, msgs[n - 1]);
      assert Norm(msgs[n - 1].symbol) == NthPath(n - 1) by { NormOfNth(n - 1); }
      NextRegistered(e.trie, n - 1, BUILT.maxNodes, BUILT.maxBooks);
    }
  }

  lemma NormOfNth(i: nat)
    requires i < ALPHABET_SIZE * ALPHABET_SIZE
    ensures Norm(NthSymbol(i)) == NthPath(i)
  {
  }

  /** 257 different symbols leave the last with an id that the cache does not serve, then or later. */
  lemma LateSymbolsOccur(later: seq<Message>)
    requires MessagesOk(later)
    ensures var e, sym := History(BUILT, Arrivals(257)).0, NthPath(256);
      && sym in e.trie.ids && e.trie.ids[sym] == 256 == BUILT.maxSymbols
      && var m, after := Message('A', NthSymbol(256), 0, 1, 1), EngineSpec.Run(BUILT, e, later).0;
         Process(BUILT, after, m) == (after, Ignored)
  {
    hide History, Process, EngineOk, FirstRegistered, NthPath, EngineSpec.Run;
    FirstMessages(257);
    NormOfNth(256);
    LateSymbolsAreDropped(BUILT, History(BUILT, Arrivals(257)).0, later, Message('A', NthSymbol(256), 0, 1, 1));
  }

  /**
   * After 1000 symbols have their ids the next one is inserted in vain, message after message: get_or_create then
   * reports it as created, as it does for every symbol without an id, and gives it none.
   */
  lemma CreatedWithoutId()
    ensures var t, sym := History(BUILT, Arrivals(1000)).0.trie, NthPath(1000);
      sym !in t.ids && TrieSpec.GetOrCreate(BUILT.maxNodes, BUILT.maxBooks, t, sym).1 == INVALID_BOOK_ID
  {
    hide History, NthPath, Grow, TrieOk;
    FirstMessages(1000);
    NextIsNew(History(BUILT, Arrivals(1000)).0.trie, 1000);
  }
}
