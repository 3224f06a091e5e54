/** The symbol trie on values: the prefixes that have a node, and the ids given to whole symbols. */
module TrieSpec {
  import opened Machine
  import opened Distinctness

  const SYMBOL_LEN: nat := 8
  const ALPHABET_SIZE: nat := 128

  type Path = seq<nat>

  /** Bytes outside the alphabet count as 0. */
  function Norm(symbol: seq<uint8>): (p: Path)
    requires |symbol| == SYMBOL_LEN
    ensures |p| == SYMBOL_LEN && forall i | 0 <= i < SYMBOL_LEN :: p[i] < ALPHABET_SIZE
  {
    seq(SYMBOL_LEN, i requires 0 <= i < SYMBOL_LEN => if symbol[i] >= ALPHABET_SIZE then 0 else symbol[i])
  }

  /** paths[n] is the prefix that node n stands for. */
  datatype Trie = Trie(paths: seq<Path>, ids: map<Path, nat>)

  /** Allocates a node for each missing prefix of sym from length i + 1 on, while there are nodes. */
  function Grow(maxNodes: nat, paths: seq<Path>, sym: Path, i: nat): (r: (seq<Path>, bool))
    requires i <= |sym|
    decreases |sym| - i
  {
    if i == |sym| then (paths, true)
    else if sym[..i + 1] in paths then Grow(maxNodes, paths, sym, i + 1)
    else if |paths| >= maxNodes then (paths, false)
    else Grow(maxNodes, paths + [sym[..i + 1]], sym, i + 1)
  }

  function Insert(maxNodes: nat, maxBooks: nat, t: Trie, sym: Path): (r: (Trie, nat)) {
    var (paths, ok) := Grow(maxNodes, t.paths, sym, 0);
    if !ok then (t.(paths := paths), INVALID_BOOK_ID)
    else if sym in t.ids then (t.(paths := paths), t.ids[sym])
    else if |t.ids| >= maxBooks then (t.(paths := paths), INVALID_BOOK_ID)
    else (Trie(paths, t.ids[sym := |t.ids|]), |t.ids|)
  }

  function Lookup(t: Trie, sym: Path): (id: nat) {
    if sym in t.ids then t.ids[sym] else INVALID_BOOK_ID
  }

  function GetOrCreate(maxNodes: nat, maxBooks: nat, t: Trie, sym: Path): (r: (Trie, nat)) {
    if sym in t.ids then (t, t.ids[sym]) else Insert(maxNodes, maxBooks, t, sym)
  }

  const EMPTY_TRIE: Trie := Trie([[]], map[])

  // ---- what holds of every trie reached ----

  predicate IdGiven(ids: map<Path, nat>, n: nat) {
    exists p :: p in ids && ids[p] == n
  }

  /** Ids are given to symbols one to one, and are exactly 0..n-1. */
  ghost predicate IdsOk(ids: map<Path, nat>) {
    && (forall p | p in ids :: ids[p] < |ids|)
    && (forall p, q | p in ids && q in ids && p != q :: ids[p] != ids[q])
    && (forall n | 0 <= n < |ids| :: IdGiven(ids, n))
  }

  predicate HasParent(paths: seq<Path>, n: nat) {
    n < |paths| && paths[n] != [] && paths[n][..|paths[n]| - 1] in paths
  }

  /** The prefixes form a tree: no prefix has two nodes, and every one but the root has its parent. */
  ghost predicate PathsOk(paths: seq<Path>) {
    && |paths| >= 1 && paths[0] == [] && Distinct(paths)
    && (forall n | 0 <= n < |paths| :: |paths[n]| <= SYMBOL_LEN)
    && (forall n | 0 < n < |paths| :: HasParent(paths, n))
  }

  /** A symbol with its own node. */
  predicate Registered(paths: seq<Path>, p: Path) {
    |p| == SYMBOL_LEN && p in paths
  }

  ghost predicate TrieOk(t: Trie) {
    && PathsOk(t.paths) && IdsOk(t.ids)
    && forall p | p in t.ids :: Registered(t.paths, p)
  }

  /** Every prefix of a path in a tree is in the tree. */
  lemma {:induction false} PrefixesPresent(paths: seq<Path>, p: Path, i: nat)
    requires PathsOk(paths) && p in paths && i <= |p|
    ensures p[..i] in paths
    decreases |p| - i
  {
    if i == |p| {
      assert p[..i] == p;
    } else {
      PrefixesPresent(paths, p, i + 1);
      var q := p[..i + 1];
      var n :| 0 <= n < |paths| && paths[n] == q;
      assert HasParent(paths, n) && q[..|q| - 1] == p[..i];
    }
  }

  lemma PathsExtend(paths: seq<Path>, p: Path)
    requires PathsOk(paths) && p !in paths && 0 < |p| <= SYMBOL_LEN && p[..|p| - 1] in paths
    ensures PathsOk(paths + [p]) && p in paths + [p]
  {
    var more := paths + [p];
    assert more[|paths|] == p;
    forall n | 0 < n < |more| ensures HasParent(more, n) {
      if n < |paths| { assert HasParent(paths, n) && more[n] == paths[n]; }
    }
  }

  /** Growing keeps the tree and the nodes there are, within the bound; on success the symbol has a node. */
  lemma {:induction false} GrowKeepsPaths(maxNodes: nat, paths: seq<Path>, sym: Path, i: nat)
    requires PathsOk(paths) && i <= |sym| <= SYMBOL_LEN && sym[..i] in paths && |paths| <= maxNodes
    ensures var (after, ok) := Grow(maxNodes, paths, sym, i);
      && PathsOk(after) && paths <= after && |after| <= maxNodes
      && (ok ==> sym in after)
      && (forall p | p in after && p !in paths :: p <= sym)
    decreases |sym| - i
  {
    hide PathsOk;
    if i == |sym| {
      assert sym[..i] == sym;
    } else if sym[..i + 1] in paths {
      GrowKeepsPaths(maxNodes, paths, sym, i + 1);
    } else if |paths| < maxNodes {
      var p := sym[..i + 1];
      assert p[..i] == sym[..i];
      PathsExtend(paths, p);
      GrowKeepsPaths(maxNodes, paths + [p], sym, i + 1);
    }
  }

  /** How many prefixes of sym, from length i + 1 on, have no node. */
  function Missing(paths: seq<Path>, sym: Path, i: nat): (n: nat)
    requires i <= |sym|
    decreases |sym| - i
  {
    if i == |sym| then 0 else (if sym[..i + 1] in paths then 0 else 1) + Missing(paths, sym, i + 1)
  }

  lemma {:induction false} MissingShorter(paths: seq<Path>, sym: Path, i: nat, p: Path)
    requires i <= |sym| && |p| <= i
    ensures Missing(paths + [p], sym, i) == Missing(paths, sym, i)
    decreases |sym| - i
  {
    if i < |sym| { MissingShorter(paths, sym, i + 1, p); }
  }

  lemma {:induction false} GrowSucceedsIff(maxNodes: nat, paths: seq<Path>, sym: Path, i: nat)
    requires i <= |sym| && |paths| <= maxNodes
    ensures Grow(maxNodes, paths, sym, i).1 <==> |paths| + Missing(paths, sym, i) <= maxNodes
    decreases |sym| - i
  {
    if i < |sym| {
      if sym[..i + 1] in paths {
        GrowSucceedsIff(maxNodes, paths, sym, i + 1);
      } else if |paths| < maxNodes {
        GrowSucceedsIff(maxNodes, paths + [sym[..i + 1]], sym, i + 1);
        MissingShorter(paths, sym, i + 1, sym[..i + 1]);
      }
    }
  }

  lemma {:induction false} NothingMissing(paths: seq<Path>, sym: Path, i: nat)
    requires PathsOk(paths) && sym in paths && i <= |sym|
    ensures Missing(paths, sym, i) == 0
    decreases |sym| - i
  {
    if i < |sym| {
      PrefixesPresent(paths, sym, i + 1);
      NothingMissing(paths, sym, i + 1);
    }
  }

  lemma NewIdKeepsIds(ids: map<Path, nat>, sym: Path)
    requires IdsOk(ids) && sym !in ids
    ensures IdsOk(ids[sym := |ids|])
  {
    var after := ids[sym := |ids|];
    forall n | 0 <= n < |after| ensures IdGiven(after, n) {
      if n < |ids| {
        assert IdGiven(ids, n);
        var p :| p in ids && ids[p] == n;
        assert after[p] == n;
      } else {
        assert after[sym] == n;
      }
    }
  }

  lemma RootPresent(t: Trie, sym: Path)
    requires TrieOk(t)
    ensures PathsOk(t.paths) && sym[..0] in t.paths
  {
  }

  /** An insert, failed or not, keeps the tree and the ids one to one. */
  lemma InsertKeepsTrie(maxNodes: nat, maxBooks: nat, t: Trie, sym: Path)
    requires TrieOk(t) && |sym| == SYMBOL_LEN && |t.paths| <= maxNodes && |t.ids| <= maxBooks
    ensures var after := Insert(maxNodes, maxBooks, t, sym).0;
      TrieOk(after) && |after.paths| <= maxNodes && |after.ids| <= maxBooks
  {
    RootPresent(t, sym);
    GrowKeepsPaths(maxNodes, t.paths, sym, 0);
    hide PathsOk, Grow, IdsOk;
    var (after, id) := Insert(maxNodes, maxBooks, t, sym);
    if sym !in t.ids { NewIdKeepsIds(t.ids, sym); }
    forall p | p in after.ids ensures |p| == SYMBOL_LEN && p in after.paths {
      if p in t.ids { assert p in t.paths; }
    }
  }

  /** It fails exactly when the symbol is new and there are too few nodes for its missing prefixes or no ids left. */
  lemma InsertFailsIff(maxNodes: nat, maxBooks: nat, t: Trie, sym: Path)
    requires TrieOk(t) && |sym| == SYMBOL_LEN && |t.paths| <= maxNodes && |t.ids| <= maxBooks <= INVALID_BOOK_ID
    ensures Insert(maxNodes, maxBooks, t, sym).1 == INVALID_BOOK_ID <==>
      sym !in t.ids && (|t.paths| + Missing(t.paths, sym, 0) > maxNodes || |t.ids| >= maxBooks)
  {
    GrowSucceedsIff(maxNodes, t.paths, sym, 0);
    if sym in t.ids { NothingMissing(t.paths, sym, 0); }
  }

  /** A failed insert changes no lookup, even when it allocated part of a path; a successful one only its own. */
  lemma InsertLookups(maxNodes: nat, maxBooks: nat, t: Trie, sym: Path)
    requires TrieOk(t) && |sym| == SYMBOL_LEN && |t.paths| <= maxNodes && |t.ids| <= maxBooks <= INVALID_BOOK_ID
    ensures var (after, id) := Insert(maxNodes, maxBooks, t, sym);
      && Lookup(after, sym) == id
      && (forall p | p != sym :: Lookup(after, p) == Lookup(t, p))
      && (id == INVALID_BOOK_ID ==> after.ids == t.ids)
  {
    InsertFailsIff(maxNodes, maxBooks, t, sym);
    hide Grow, Missing, TrieOk;
  }

  function RunTrie(maxNodes: nat, maxBooks: nat, t: Trie, syms: seq<Path>): (r: Trie)
    decreases |syms|
  {
    if syms == [] then t else RunTrie(maxNodes, maxBooks, GetOrCreate(maxNodes, maxBooks, t, syms[0]).0, syms[1..])
  }

  /** Over every run of lookups and inserts: ids stay one to one and contiguous, and an id once given never changes. */
  lemma {:induction false} IdsAreStable(maxNodes: nat, maxBooks: nat, t: Trie, syms: seq<Path>)
    requires TrieOk(t) && |t.paths| <= maxNodes && |t.ids| <= maxBooks <= INVALID_BOOK_ID
    requires forall i | 0 <= i < |syms| :: |syms[i]| == SYMBOL_LEN
    ensures var after := RunTrie(maxNodes, maxBooks, t, syms);
      && TrieOk(after)
      && forall p | p in t.ids :: p in after.ids && after.ids[p] == t.ids[p]
    decreases |syms|
  {
    if syms != [] {
      InsertKeepsTrie(maxNodes, maxBooks, t, syms[0]);
      var next := GetOrCreate(maxNodes, maxBooks, t, syms[0]).0;
      IdsAreStable(maxNodes, maxBooks, next, syms[1..]);
      forall p | p in t.ids ensures p in next.ids && next.ids[p] == t.ids[p] {
        IdsGrow(maxNodes, maxBooks, t, syms[0], p);
      }
    }
  }

  lemma IdsGrow(maxNodes: nat, maxBooks: nat, t: Trie, sym: Path, p: Path)
    requires p in t.ids
    ensures var next := GetOrCreate(maxNodes, maxBooks, t, sym).0; p in next.ids && next.ids[p] == t.ids[p]
  {
  }
}
