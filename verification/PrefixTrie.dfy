/** The flat-array trie that routes symbols to book ids. */
module SymbolTrie {
  import opened Machine
  import opened TrieSpec

  datatype TrieNode = TrieNode(children: seq<uint32>, bookId: uint16)

  function Blank(): (n: TrieNode) {
    TrieNode(seq(ALPHABET_SIZE, _ => 0), INVALID_BOOK_ID)
  }

  /** The child of node n at c is the node of the longer prefix, and 0 when that has none. */
  ghost predicate ChildOk(nodes: seq<TrieNode>, paths: seq<Path>, n: nat, c: nat)
    requires n < |nodes| && n < |paths| && c < |nodes[n].children|
  {
    var child := nodes[n].children[c];
    if child == 0 then paths[n] + [c] !in paths else child < |paths| && paths[child] == paths[n] + [c]
  }

  ghost predicate NodesMatch(nodes: seq<TrieNode>, paths: seq<Path>, ids: map<Path, nat>) {
    && |paths| <= |nodes|
    && (forall n | 0 <= n < |nodes| :: |nodes[n].children| == ALPHABET_SIZE)
    && (forall n, c: nat | 0 <= n < |paths| && c < ALPHABET_SIZE :: ChildOk(nodes, paths, n, c))
    && (forall n | 0 <= n < |paths| :: nodes[n].bookId == if paths[n] in ids then ids[paths[n]] else INVALID_BOOK_ID)
    && (forall n | |paths| <= n < |nodes| :: nodes[n] == Blank())
  }

  lemma SnocInjective(p: Path, c: nat, q: Path, d: nat)
    ensures p + [c] == q + [d] ==> p == q && c == d
  {
    assert (p + [c])[..|p|] == p && (p + [c])[|p|] == c;
    assert (q + [d])[..|q|] == q && (q + [d])[|q|] == d;
  }

  /** No node has two parents: the flat array is a tree. */
  lemma ParentIsUnique(nodes: seq<TrieNode>, paths: seq<Path>, ids: map<Path, nat>, m: nat, c: nat, n: nat, d: nat)
    requires PathsOk(paths) && NodesMatch(nodes, paths, ids)
    requires m < |paths| && n < |paths| && c < ALPHABET_SIZE && d < ALPHABET_SIZE
    requires nodes[m].children[c] == nodes[n].children[d] != 0
    ensures m == n && c == d
  {
    assert ChildOk(nodes, paths, m, c) && ChildOk(nodes, paths, n, d);
    SnocInjective(paths[m], c, paths[n], d);
  }

  /** A node for a missing prefix, linked from its parent. */
  lemma NodeAdded(nodes: seq<TrieNode>, paths: seq<Path>, ids: map<Path, nat>, n: nat, c: nat)
    requires PathsOk(paths) && NodesMatch(nodes, paths, ids) && n < |paths| < |nodes| < TWO32
    requires |nodes[n].children| == ALPHABET_SIZE && c < ALPHABET_SIZE
    requires nodes[n].children[c] == 0 && |paths[n]| < SYMBOL_LEN && KeysPresent(Trie(paths, ids))
    ensures paths[n] + [c] !in paths && PathsOk(paths + [paths[n] + [c]])
    ensures NodesMatch(nodes[n := nodes[n].(children := nodes[n].children[c := |paths|])],
                       paths + [paths[n] + [c]], ids)
  {
    hide PathsOk;
    assert ChildOk(nodes, paths, n, c);
    var p := paths[n] + [c];
    assert p[..|p| - 1] == paths[n];
    PathsExtend(paths, p);
    var nodes', paths' := nodes[n := nodes[n].(children := nodes[n].children[c := |paths|])], paths + [p];
    forall m, d: nat | 0 <= m < |paths'| && d < ALPHABET_SIZE ensures ChildOk(nodes', paths', m, d) {
      AddedChild(nodes, nodes', paths, ids, n, c, m, d);
    }
    AddedIds(nodes, nodes', paths, ids, n, p);
  }

  lemma AddedIds(nodes: seq<TrieNode>, nodes': seq<TrieNode>, paths: seq<Path>, ids: map<Path, nat>, n: nat, p: Path)
    requires NodesMatch(nodes, paths, ids) && n < |paths| < |nodes| && p !in paths && KeysPresent(Trie(paths, ids))
    requires exists children: seq<uint32> ::
      |children| == ALPHABET_SIZE && nodes' == nodes[n := nodes[n].(children := children)]
    ensures forall m | 0 <= m < |nodes'| :: |nodes'[m].children| == ALPHABET_SIZE
    ensures forall m | 0 <= m <= |paths| ::
      nodes'[m].bookId == if (paths + [p])[m] in ids then ids[(paths + [p])[m]] else INVALID_BOOK_ID
    ensures forall m | |paths| < m < |nodes'| :: nodes'[m] == Blank()
  {
  }

  lemma AddedChild(nodes: seq<TrieNode>, nodes': seq<TrieNode>, paths: seq<Path>, ids: map<Path, nat>,
                   n: nat, c: nat, m: nat, d: nat)
    requires PathsOk(paths) && NodesMatch(nodes, paths, ids) && n < |paths| < |nodes| < TWO32 && c < ALPHABET_SIZE
    requires paths[n] + [c] !in paths && m <= |paths| && d < ALPHABET_SIZE
    requires nodes' == nodes[n := nodes[n].(children := nodes[n].children[c := |paths|])]
    ensures ChildOk(nodes', paths + [paths[n] + [c]], m, d)
  {
    var p := paths[n] + [c];
    var paths' := paths + [p];
    if m == |paths| {
      var q := p + [d];
      assert q[..|p|] == p;
      if q in paths { PrefixesPresent(paths, q, |p|); }
      assert paths'[m] == p && q != p;
    } else {
      assert ChildOk(nodes, paths, m, d);
      assert paths'[m] == paths[m];
      if m != n || d != c {
        SnocInjective(paths[m], d, paths[n], c);
        assert paths[m] + [d] != p;
      } else {
        assert paths'[|paths|] == p;
      }
    }
  }

  lemma IdAdded(nodes: seq<TrieNode>, paths: seq<Path>, ids: map<Path, nat>, n: nat, id: uint16)
    requires PathsOk(paths) && NodesMatch(nodes, paths, ids) && n < |paths|
    ensures NodesMatch(nodes[n := nodes[n].(bookId := id)], paths, ids[paths[n] := id])
  {
    var nodes' := nodes[n := nodes[n].(bookId := id)];
    forall m, d: nat | 0 <= m < |paths| && d < ALPHABET_SIZE ensures ChildOk(nodes', paths, m, d) {
      assert ChildOk(nodes, paths, m, d);
    }
  }

  lemma ChildFacts(nodes: seq<TrieNode>, paths: seq<Path>, ids: map<Path, nat>, n: nat, c: nat)
    requires NodesMatch(nodes, paths, ids) && n < |paths| && c < ALPHABET_SIZE
    ensures n < |nodes| && |nodes[n].children| == ALPHABET_SIZE && ChildOk(nodes, paths, n, c)
  {
  }

  lemma IdFacts(nodes: seq<TrieNode>, paths: seq<Path>, ids: map<Path, nat>, n: nat)
    requires NodesMatch(nodes, paths, ids) && IdsOk(ids) && n < |paths| && |ids| <= INVALID_BOOK_ID
    ensures n < |nodes| && nodes[n].bookId == (if paths[n] in ids then ids[paths[n]] else INVALID_BOOK_ID)
    ensures paths[n] in ids <==> nodes[n].bookId != INVALID_BOOK_ID
  {
  }

  ghost predicate KeysPresent(t: Trie) {
    forall p | p in t.ids :: p in t.paths
  }

  lemma KeysStay(t: Trie, p: Path)
    requires KeysPresent(t)
    ensures KeysPresent(t.(paths := t.paths + [p]))
  {
  }

  lemma KeysGain(t: Trie, n: nat, id: nat)
    requires KeysPresent(t) && n < |t.paths|
    ensures KeysPresent(t.(ids := t.ids[t.paths[n] := id]))
  {
  }

  lemma GrowStep(maxNodes: nat, paths: seq<Path>, sym: Path, i: nat)
    requires i < |sym|
    ensures Grow(maxNodes, paths, sym, i) ==
      if sym[..i + 1] in paths then Grow(maxNodes, paths, sym, i + 1)
      else if |paths| >= maxNodes then (paths, false)
      else Grow(maxNodes, paths + [sym[..i + 1]], sym, i + 1)
  {
  }

  lemma GrowEnd(maxNodes: nat, paths: seq<Path>, sym: Path)
    ensures Grow(maxNodes, paths, sym, |sym|) == (paths, true)
  {
  }

  lemma TrieParts(t: Trie)
    requires TrieOk(t)
    ensures PathsOk(t.paths) && IdsOk(t.ids) && KeysPresent(t) && |t.paths| >= 1 && t.paths[0] == []
  {
  }

  /** A symbol in the map has its whole path in the tree. */
  lemma MissingPathMissingId(t: Trie, sym: Path, i: nat)
    requires TrieOk(t) && i <= |sym| && sym[..i] !in t.paths
    ensures sym !in t.ids
  {
    if sym in t.ids { PrefixesPresent(t.paths, sym, i); }
  }

  class PrefixTrie {
    const maxNodes: uint32
    const maxBooks: uint16
    const nodes: array<TrieNode>
    var nodeCount: uint32
    var nextBookId: uint16

    ghost var trie: Trie

    ghost function Footprint(): set<object> {
      {this, nodes}
    }

    ghost predicate Valid()
      reads this, nodes
    {
      && 1 <= maxNodes == nodes.Length && maxBooks <= INVALID_BOOK_ID
      && TrieOk(trie) && NodesMatch(nodes[..], trie.paths, trie.ids)
      && nodeCount == |trie.paths| && nextBookId == |trie.ids| <= maxBooks
    }

    constructor (size: uint32, books: uint16)
      requires 1 <= size
      ensures Valid() && trie == EMPTY_TRIE && maxNodes == size && maxBooks == books && fresh(nodes)
    {
      maxNodes, maxBooks := size, books;
      nodes := new TrieNode[size](_ => Blank());
      nodeCount, nextBookId := 1, 0;
      trie := EMPTY_TRIE;
      new;
      EmptyMatches(nodes[..]);
    }

    static lemma EmptyMatches(ns: seq<TrieNode>)
      requires |ns| >= 1 && forall n | 0 <= n < |ns| :: ns[n] == Blank()
      ensures TrieOk(EMPTY_TRIE) && NodesMatch(ns, EMPTY_TRIE.paths, EMPTY_TRIE.ids)
    {
    }

    /** What stays true while the path of a symbol is being built. */
    ghost predicate Building()
      reads this, nodes
    {
      && 1 <= maxNodes == nodes.Length && maxBooks <= INVALID_BOOK_ID
      && PathsOk(trie.paths) && IdsOk(trie.ids) && KeysPresent(trie)
      && NodesMatch(nodes[..], trie.paths, trie.ids)
      && nodeCount == |trie.paths| <= maxNodes && nextBookId == |trie.ids| <= maxBooks
    }

    /** Gives a symbol the next id, building its path; fails when nodes or ids run out. */
    method Insert(symbol: seq<uint8>) returns (id: uint16)
      requires Valid() && |symbol| == SYMBOL_LEN
      modifies Footprint()
      ensures Valid()
      ensures (trie, id as nat) == TrieSpec.Insert(maxNodes, maxBooks, old(trie), Norm(symbol))
    {
      hide TrieOk, PathsOk, NodesMatch, IdsOk, KeysPresent, Grow;
      ghost var sym, ids := Norm(symbol), trie.ids;
      TrieParts(trie);
      MatchBound(nodes[..], trie.paths, ids);
      InsertKeepsTrie(maxNodes, maxBooks, trie, sym);
      var nodeIdx: uint32 := 0;
      for i := 0 to SYMBOL_LEN
        invariant Building() && trie.ids == ids
        invariant nodeIdx < nodeCount && trie.paths[nodeIdx] == sym[..i]
        invariant Grow(maxNodes, trie.paths, sym, i) == Grow(maxNodes, old(trie.paths), sym, 0)
      {
        var c := symbol[i];
        if c >= ALPHABET_SIZE { c := 0; }
        assert sym[..i + 1] == sym[..i] + [c as nat];
        GrowStep(maxNodes, trie.paths, sym, i);
        var child := Child(nodeIdx, c);
        if child == 0 {
          if nodeCount >= maxNodes { return INVALID_BOOK_ID; }
          AddNode(nodeIdx, c);
          child := nodeCount - 1;
        }
        nodeIdx := child;
      }
      assert sym[..SYMBOL_LEN] == sym;
      GrowEnd(maxNodes, trie.paths, sym);
      id := GiveId(nodeIdx);
    }

    /** The id at a node, giving it the next one when it has none. */
    method GiveId(nodeIdx: uint32) returns (id: uint16)
      requires Building() && nodeIdx < nodeCount
      modifies Footprint()
      ensures Building() && trie.paths == old(trie).paths
      ensures var sym, ids := old(trie).paths[nodeIdx], old(trie).ids;
        if sym in ids then trie.ids == ids && id == ids[sym]
        else if |ids| >= maxBooks then trie.ids == ids && id == INVALID_BOOK_ID
        else trie.ids == ids[sym := |ids|] && id == |ids|
    {
      hide PathsOk, NodesMatch, IdsOk, KeysPresent;
      ghost var sym := trie.paths[nodeIdx];
      IdFacts(nodes[..], trie.paths, trie.ids, nodeIdx);
      if nodes[nodeIdx].bookId == INVALID_BOOK_ID {
        if nextBookId >= maxBooks { return INVALID_BOOK_ID; }
        IdAdded(nodes[..], trie.paths, trie.ids, nodeIdx, nextBookId);
        NewIdKeepsIds(trie.ids, sym);
        KeysGain(trie, nodeIdx, nextBookId);
        nodes[nodeIdx] := nodes[nodeIdx].(bookId := nextBookId);
        trie := trie.(ids := trie.ids[sym := nextBookId as nat]);
        nextBookId := nextBookId + 1;
      }
      id := nodes[nodeIdx].bookId;
    }

    static lemma MatchBound(ns: seq<TrieNode>, paths: seq<Path>, ids: map<Path, nat>)
      requires NodesMatch(ns, paths, ids)
      ensures |paths| <= |ns|
    {
    }

    /** The child of a node, 0 when there is none. */
    method Child(nodeIdx: uint32, c: uint8) returns (child: uint32)
      requires Building() && nodeIdx < nodeCount && c < ALPHABET_SIZE
      ensures var p := trie.paths[nodeIdx] + [c as nat];
        if child == 0 then p !in trie.paths else child < nodeCount && trie.paths[child] == p
      ensures |nodes[nodeIdx].children| == ALPHABET_SIZE && child == nodes[nodeIdx].children[c]
    {
      hide PathsOk, NodesMatch, IdsOk, KeysPresent;
      MatchBound(nodes[..], trie.paths, trie.ids);
      ChildFacts(nodes[..], trie.paths, trie.ids, nodeIdx, c);
      child := nodes[nodeIdx].children[c];
    }

    /** Allocates the next node and links it. */
    method AddNode(nodeIdx: uint32, c: uint8)
      requires Building() && nodeIdx < nodeCount < maxNodes && c < ALPHABET_SIZE
      requires |trie.paths[nodeIdx]| < SYMBOL_LEN
      requires |nodes[nodeIdx].children| == ALPHABET_SIZE && nodes[nodeIdx].children[c] == 0
      modifies Footprint()
      ensures Building() && nodeCount == old(nodeCount) + 1
      ensures trie == old(trie).(paths := old(trie).paths + [old(trie).paths[nodeIdx] + [c as nat]])
    {
      hide PathsOk, NodesMatch, IdsOk, KeysPresent;
      NodeAdded(nodes[..], trie.paths, trie.ids, nodeIdx, c);
      KeysStay(trie, trie.paths[nodeIdx] + [c as nat]);
      nodes[nodeIdx] := nodes[nodeIdx].(children := nodes[nodeIdx].children[c := nodeCount]);
      nodeCount := nodeCount + 1;
      trie := trie.(paths := trie.paths + [trie.paths[nodeIdx] + [c as nat]]);
    }

    /** The id of a symbol, or the invalid id. */
    method Lookup(symbol: seq<uint8>) returns (id: uint16)
      requires Valid() && |symbol| == SYMBOL_LEN
      ensures id == TrieSpec.Lookup(trie, Norm(symbol))
    {
      hide TrieOk, PathsOk, NodesMatch, IdsOk, KeysPresent;
      ghost var sym := Norm(symbol);
      TrieParts(trie);
      MatchBound(nodes[..], trie.paths, trie.ids);
      var nodeIdx: uint32 := 0;
      for i := 0 to SYMBOL_LEN
        invariant nodeIdx < nodeCount && trie.paths[nodeIdx] == sym[..i]
      {
        var c := symbol[i];
        if c >= ALPHABET_SIZE { c := 0; }
        assert sym[..i + 1] == sym[..i] + [c as nat];
        var child := Child(nodeIdx, c);
        if child == 0 {
          MissingPathMissingId(trie, sym, i + 1);
          return INVALID_BOOK_ID;
        }
        nodeIdx := child;
      }
      assert sym[..SYMBOL_LEN] == sym;
      IdFacts(nodes[..], trie.paths, trie.ids, nodeIdx);
      id := nodes[nodeIdx].bookId;
    }

    /** Looks a symbol up and inserts it when it is not there; created says an insert was attempted. */
    method GetOrCreate(symbol: seq<uint8>) returns (id: uint16, created: bool)
      requires Valid() && |symbol| == SYMBOL_LEN
      modifies Footprint()
      ensures Valid()
      ensures (trie, id as nat) == TrieSpec.GetOrCreate(maxNodes, maxBooks, old(trie), Norm(symbol))
      ensures created <==> Norm(symbol) !in old(trie).ids
    {
      hide PathsOk, NodesMatch;
      id := Lookup(symbol);
      created := false;
      if id == INVALID_BOOK_ID {
        id := Insert(symbol);
        created := true;
      }
    }
  }
}
