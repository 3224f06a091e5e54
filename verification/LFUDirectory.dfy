/** Frequency buckets: doubly linked lists of book ids, one per frequency, newest access first. */
module FrequencyLists {
  import opened Machine
  import opened Distinctness
  import opened LfuSpec

  datatype LFUNode = LFUNode(
    bookId: uint16, symbol: seq<uint8>, frequency: uint32, freqPrev: uint32, freqNext: uint32,
    inCache: bool, valid: bool)
  datatype FreqBucket = FreqBucket(head: uint32, tail: uint32, count: uint32)

  type Ids = seq<uint32>

  function PrevId(l: Ids, k: nat): (r: uint32)
    requires k < |l|
  {
    if k == 0 then NULL_IDX else l[k - 1]
  }

  function NextId(l: Ids, k: nat): (r: uint32)
    requires k < |l|
  {
    if k + 1 < |l| then l[k + 1] else NULL_IDX
  }

  function HeadId(l: Ids): (r: uint32) {
    if l == [] then NULL_IDX else l[0]
  }

  function TailId(l: Ids): (r: uint32) {
    if l == [] then NULL_IDX else l[|l| - 1]
  }

  // ---- the links ----

  ghost predicate NodeOk(nodes: seq<LFUNode>, l: Ids, k: nat, f: nat)
    requires k < |l|
  {
    && l[k] < |nodes| && nodes[l[k]].frequency == f
    && nodes[l[k]].freqPrev == PrevId(l, k) && nodes[l[k]].freqNext == NextId(l, k)
  }

  ghost predicate ListOk(nodes: seq<LFUNode>, b: FreqBucket, l: Ids, f: nat) {
    && b.head == HeadId(l) && b.tail == TailId(l) && b.count == |l|
    && (forall k | 0 <= k < |l| :: NodeOk(nodes, l, k, f))
    && Distinct(l)
  }

  ghost predicate BucketsOk(nodes: seq<LFUNode>, buckets: seq<FreqBucket>, lists: seq<Ids>) {
    && |nodes| <= 0x1_0000 && |buckets| == |lists|
    && forall f | 0 <= f < |lists| :: ListOk(nodes, buckets[f], lists[f], f)
  }

  /** A list stands as long as its own nodes do. */
  lemma ListKept(nodes: seq<LFUNode>, nodes': seq<LFUNode>, b: FreqBucket, l: Ids, f: nat)
    requires |nodes'| == |nodes| && ListOk(nodes, b, l, f)
    requires forall i: uint32 | i < |nodes| && i in l && nodes[i].frequency == f :: nodes'[i] == nodes[i]
    ensures ListOk(nodes', b, l, f)
  {
    forall k | 0 <= k < |l| ensures NodeOk(nodes', l, k, f) {
      assert NodeOk(nodes, l, k, f);
    }
  }

  function Linked(nodes: seq<LFUNode>, head: uint32, id: uint32): (r: seq<LFUNode>)
    requires id < |nodes| && (head == NULL_IDX || head < |nodes|)
    ensures |r| == |nodes|
  {
    var a := nodes[id := nodes[id].(freqPrev := NULL_IDX, freqNext := head)];
    if head == NULL_IDX then a else a[head := a[head].(freqPrev := id)]
  }

  lemma HeadInRange(nodes: seq<LFUNode>, buckets: seq<FreqBucket>, lists: seq<Ids>, f: nat)
    requires BucketsOk(nodes, buckets, lists) && f < |lists|
    ensures buckets[f].head == HeadId(lists[f]) && buckets[f].tail == TailId(lists[f]) && buckets[f].count == |lists[f]|
    ensures lists[f] == [] <==> buckets[f].head == NULL_IDX
    ensures lists[f] == [] <==> buckets[f].tail == NULL_IDX
    ensures forall k | 0 <= k < |lists[f]| :: lists[f][k] < |nodes| && nodes[lists[f][k]].frequency == f
  {
    forall k | 0 <= k < |lists[f]| ensures lists[f][k] < |nodes| && nodes[lists[f][k]].frequency == f {
      assert NodeOk(nodes, lists[f], k, f);
    }
  }

  /** Inserting an unlisted id at the head of the bucket of its frequency. */
  lemma AddKeepsBuckets(nodes: seq<LFUNode>, buckets: seq<FreqBucket>, lists: seq<Ids>, id: uint32, f: nat)
    requires BucketsOk(nodes, buckets, lists) && f < |lists| && id < |nodes| && nodes[id].frequency == f
    requires forall g | 0 <= g < |lists| :: id !in lists[g]
    ensures buckets[f].head == NULL_IDX || buckets[f].head < |nodes|
    ensures |lists[f]| + 1 <= |nodes|
    ensures var b := buckets[f];
      BucketsOk(Linked(nodes, b.head, id),
        buckets[f := FreqBucket(id, if b.head == NULL_IDX then id else b.tail, |lists[f]| + 1)],
        lists[f := [id] + lists[f]])
  {
    HeadInRange(nodes, buckets, lists, f);
    var l, b := lists[f], buckets[f];
    var nodes', l' := Linked(nodes, b.head, id), [id] + l;
    Pigeonhole(l', |nodes|);
    forall k | 0 <= k < |l'| ensures NodeOk(nodes', l', k, f) {
      if k > 0 {
        assert NodeOk(nodes, l, k - 1, f) && l'[k] == l[k - 1];
        assert k > 1 ==> l[k - 1] != l[0];
      }
    }
    var b' := FreqBucket(id, if b.head == NULL_IDX then id else b.tail, |l| + 1);
    assert ListOk(nodes', b', l', f);
    forall g | 0 <= g < |lists| && g != f ensures ListOk(nodes', buckets[g], lists[g], g) {
      ListKept(nodes, nodes', buckets[g], lists[g], g);
    }
  }

  predicate FreqLinksInRange(nodes: seq<LFUNode>, id: uint32) {
    && id < |nodes|
    && (nodes[id].freqPrev == NULL_IDX || nodes[id].freqPrev < |nodes|)
    && (nodes[id].freqNext == NULL_IDX || nodes[id].freqNext < |nodes|)
  }

  function Spliced(nodes: seq<LFUNode>, id: uint32): (r: seq<LFUNode>)
    requires FreqLinksInRange(nodes, id)
    ensures |r| == |nodes|
  {
    var prev, next := nodes[id].freqPrev, nodes[id].freqNext;
    var a := if prev == NULL_IDX then nodes else nodes[prev := nodes[prev].(freqNext := next)];
    var b := if next == NULL_IDX then a else a[next := a[next].(freqPrev := prev)];
    b[id := b[id].(freqPrev := NULL_IDX, freqNext := NULL_IDX)]
  }

  /** Every node after the splice, one by one. */
  lemma SplicedAt(nodes: seq<LFUNode>, id: uint32)
    requires |nodes| <= 0x1_0000 && FreqLinksInRange(nodes, id)
    requires nodes[id].freqPrev != id && nodes[id].freqNext != id
    ensures var n, after := nodes[id], Spliced(nodes, id);
      && after[id] == n.(freqPrev := NULL_IDX, freqNext := NULL_IDX)
      && forall u | 0 <= u < |nodes| && u != id ::
           after[u] == nodes[u].(freqNext := if u == n.freqPrev then n.freqNext else nodes[u].freqNext,
                                 freqPrev := if u == n.freqNext then n.freqPrev else nodes[u].freqPrev)
  {
  }

  lemma FreqNeighbours(nodes: seq<LFUNode>, b: FreqBucket, l: Ids, f: nat, k: nat)
    requires |nodes| <= 0x1_0000 && ListOk(nodes, b, l, f) && k < |l|
    ensures FreqLinksInRange(nodes, l[k]) && nodes[l[k]].freqPrev != l[k] && nodes[l[k]].freqNext != l[k]
    ensures nodes[l[k]].freqPrev == PrevId(l, k) && nodes[l[k]].freqNext == NextId(l, k)
    ensures k == 0 <==> nodes[l[k]].freqPrev == NULL_IDX
    ensures k + 1 == |l| <==> nodes[l[k]].freqNext == NULL_IDX
  {
    assert NodeOk(nodes, l, k, f);
    if k > 0 { assert NodeOk(nodes, l, k - 1, f); }
    if k + 1 < |l| { assert NodeOk(nodes, l, k + 1, f); }
  }

  lemma SplicedList(nodes: seq<LFUNode>, b: FreqBucket, l: Ids, f: nat, k: nat)
    requires |nodes| <= 0x1_0000 && ListOk(nodes, b, l, f) && k < |l|
    ensures FreqLinksInRange(nodes, l[k])
    ensures var n := nodes[l[k]];
      ListOk(Spliced(nodes, l[k]),
        FreqBucket(if n.freqPrev == NULL_IDX then n.freqNext else b.head,
                   if n.freqNext == NULL_IDX then n.freqPrev else b.tail, |l| - 1),
        Without(l, k), f)
  {
    hide Spliced;
    FreqNeighbours(nodes, b, l, f, k);
    SplicedAt(nodes, l[k]);
    var nodes', l' := Spliced(nodes, l[k]), Without(l, k);
    forall i | 0 <= i < |l'| ensures NodeOk(nodes', l', i, f) {
      var j := if i < k then i else i + 1;
      assert l'[i] == l[j] && NodeOk(nodes, l, j, f);
      assert l[j] != l[k];
      assert k > 0 ==> (l[j] == l[k - 1] <==> j == k - 1);
      assert k + 1 < |l| ==> (l[j] == l[k + 1] <==> j == k + 1);
    }
  }

  /** Taking a listed id out of the bucket of its frequency. */
  lemma RemoveKeepsBuckets(nodes: seq<LFUNode>, buckets: seq<FreqBucket>, lists: seq<Ids>, f: nat, k: nat)
    requires BucketsOk(nodes, buckets, lists) && f < |lists| && k < |lists[f]|
    ensures FreqLinksInRange(nodes, lists[f][k])
    ensures var id, b := lists[f][k], buckets[f];
      var n := nodes[id];
      BucketsOk(Spliced(nodes, id),
        buckets[f := FreqBucket(if n.freqPrev == NULL_IDX then n.freqNext else b.head,
                                if n.freqNext == NULL_IDX then n.freqPrev else b.tail, |lists[f]| - 1)],
        lists[f := Without(lists[f], k)])
  {
    hide Spliced;
    var l, b := lists[f], buckets[f];
    SplicedList(nodes, b, l, f, k);
    FreqNeighbours(nodes, b, l, f, k);
    SplicedAt(nodes, l[k]);
    var nodes' := Spliced(nodes, l[k]);
    HeadInRange(nodes, buckets, lists, f);
    assert forall i | 0 <= i < |nodes| && nodes[i].frequency != f :: nodes'[i] == nodes[i] by {
      assert k > 0 ==> nodes[l[k - 1]].frequency == f;
      assert k + 1 < |l| ==> nodes[l[k + 1]].frequency == f;
    }
    forall g | 0 <= g < |lists| && g != f ensures ListOk(nodes', buckets[g], lists[g], g) {
      ListKept(nodes, nodes', buckets[g], lists[g], g);
    }
  }

  // ---- the order within the lists ----

  predicate OnList(l: Ids, id: nat) {
    exists k :: 0 <= k < |l| && l[k] == id
  }

  /** The lists hold exactly the cached books, each under its frequency, newest access first. */
  ghost predicate ListsOk(maxFrequency: nat, lists: seq<Ids>, recs: map<nat, Rec>, clock: nat) {
    && maxFrequency >= 2 && |lists| == maxFrequency
    && (forall f, k | 0 <= f < |lists| && 0 <= k < |lists[f]| ::
          lists[f][k] in recs && Freq(maxFrequency, recs[lists[f][k]]) == f)
    && (forall j | j in recs :: recs[j].count >= 1 && recs[j].last < clock)
    && (forall j | j in recs :: OnList(lists[Freq(maxFrequency, recs[j])], j))
    && (forall f, i, k | 0 <= f < |lists| && 0 <= i < k < |lists[f]| :: recs[lists[f][i]].last > recs[lists[f][k]].last)
  }

  lemma ListsRemove(maxFrequency: nat, lists: seq<Ids>, recs: map<nat, Rec>, clock: nat, f: nat, k: nat)
    requires ListsOk(maxFrequency, lists, recs, clock) && f < |lists| && k < |lists[f]|
    ensures ListsOk(maxFrequency, lists[f := Without(lists[f], k)], recs - {lists[f][k]}, clock)
  {
    hide OnList;
    var id, l' := lists[f][k], Without(lists[f], k);
    var lists', recs' := lists[f := l'], recs - {id};
    assert forall i | 0 <= i < |l'| :: l'[i] == lists[f][if i < k then i else i + 1];
    forall g, i | 0 <= g < |lists'| && 0 <= i < |lists'[g]|
      ensures lists'[g][i] in recs' && Freq(maxFrequency, recs'[lists'[g][i]]) == g
    {
      if g == f { assert lists[f][if i < k then i else i + 1] != id; }
    }
    forall j | j in recs' ensures OnList(lists'[Freq(maxFrequency, recs'[j])], j) {
      OnListWithout(lists[f], k, j);
    }
  }

  lemma OnListWithout(l: Ids, k: nat, j: nat)
    requires k < |l| && j != l[k]
    ensures OnList(l, j) ==> OnList(Without(l, k), j)
  {
    if i :| 0 <= i < |l| && l[i] == j {
      assert Without(l, k)[if i < k then i else i - 1] == j;
    }
  }

  lemma OnListCons(id: uint32, l: Ids, j: nat)
    ensures OnList(l, j) || j == id ==> OnList([id] + l, j)
  {
    if j == id {
      assert ([id] + l)[0] == j;
    } else if i :| 0 <= i < |l| && l[i] == j {
      assert ([id] + l)[i + 1] == j;
    }
  }

  lemma ListsAdd(maxFrequency: nat, lists: seq<Ids>, recs: map<nat, Rec>, clock: nat, id: uint32, r: Rec)
    requires ListsOk(maxFrequency, lists, recs, clock) && id !in recs && r.last == clock && r.count >= 1
    ensures var f := Freq(maxFrequency, r);
      0 <= f < |lists| && ListsOk(maxFrequency, lists[f := [id] + lists[f]], recs[id := r], clock + 1)
  {
    hide OnList;
    var f := Freq(maxFrequency, r);
    var l', recs' := [id] + lists[f], recs[id := r];
    var lists' := lists[f := l'];
    forall j | j in recs' ensures OnList(lists'[Freq(maxFrequency, recs'[j])], j) {
      OnListCons(id, lists[f], j);
    }
    forall g, i, k | 0 <= g < |lists'| && 0 <= i < k < |lists'[g]|
      ensures recs'[lists'[g][i]].last > recs'[lists'[g][k]].last
    {
      if g == f && i == 0 { assert lists'[g][k] == lists[f][k - 1]; }
    }
  }

  lemma Unlisted(maxFrequency: nat, lists: seq<Ids>, recs: map<nat, Rec>, clock: nat, id: uint32)
    requires ListsOk(maxFrequency, lists, recs, clock) && id !in recs
    ensures forall g | 0 <= g < |lists| :: id !in lists[g]
  {
  }

  lemma PositionOf(maxFrequency: nat, lists: seq<Ids>, recs: map<nat, Rec>, clock: nat, id: uint32) returns (k: nat)
    requires ListsOk(maxFrequency, lists, recs, clock) && id in recs
    ensures var f := Freq(maxFrequency, recs[id]); 0 <= f < |lists| && k < |lists[f]| && lists[f][k] == id
  {
    var f := Freq(maxFrequency, recs[id]);
    assert OnList(lists[f], id);
    k :| 0 <= k < |lists[f]| && lists[f][k] == id;
  }

  // ---- the least frequency ----

  /** min is the least frequency of any cached book. */
  ghost predicate MinOk(lists: seq<Ids>, recs: map<nat, Rec>, min: nat) {
    recs != map[] ==> min < |lists| && lists[min] != [] && forall f | 0 <= f < min :: lists[f] == []
  }

  /** The tail of the least bucket is the victim. */
  lemma TailIsVictim(maxFrequency: nat, lists: seq<Ids>, recs: map<nat, Rec>, clock: nat, min: nat)
    requires ListsOk(maxFrequency, lists, recs, clock) && MinOk(lists, recs, min) && recs != map[]
    ensures min < |lists| && lists[min] != [] && IsVictim(maxFrequency, recs, TailId(lists[min]))
  {
  }

  /** Moving a book up keeps min exact with no scan: its new bucket is next when the least one empties. */
  lemma MinAfterHit(maxFrequency: nat, lists: seq<Ids>, recs: map<nat, Rec>, clock: nat, min: nat, id: uint32, k: nat,
                    r: Rec)
    requires ListsOk(maxFrequency, lists, recs, clock) && MinOk(lists, recs, min) && id in recs
    requires var f := Freq(maxFrequency, recs[id]); 0 <= f < |lists| && k < |lists[f]| && lists[f][k] == id
    requires r.count == recs[id].count + 1
    ensures var f, f' := Freq(maxFrequency, recs[id]), Freq(maxFrequency, r);
      var removed := lists[f := Without(lists[f], k)];
      && f' == (if f < maxFrequency - 1 then f + 1 else f)
      && MinOk(removed[f' := [id] + removed[f']], recs[id := r],
               if removed[f] == [] && f == min then f' else min)
  {
  }

  lemma MinAfterMiss(lists: seq<Ids>, recs: map<nat, Rec>, id: uint32)
    requires |lists| >= 2 && lists[0] == []
    ensures MinOk(lists[1 := [id] + lists[1]], recs, 1)
  {
  }

  /** No book is ever tracked with frequency 0. */
  lemma NoZeroFrequency(maxFrequency: nat, lists: seq<Ids>, recs: map<nat, Rec>, clock: nat)
    requires ListsOk(maxFrequency, lists, recs, clock)
    ensures lists[0] == []
  {
    assert lists[0] != [] ==> lists[0][0] in recs && Freq(maxFrequency, recs[lists[0][0]]) == 0;
  }

  // ---- the nodes ----

  /** The nodes of cached books, of books that have left the cache, and of those that never were in it. */
  ghost predicate NodesOk(maxFrequency: nat, nodes: seq<LFUNode>, recs: map<nat, Rec>, left: map<nat, int>) {
    && (forall j | j in recs || j in left :: j < |nodes|)
    && forall i | 0 <= i < |nodes| ::
         && (nodes[i].inCache <==> i in recs)
         && (i !in recs ==> if i in left then nodes[i].valid && nodes[i].frequency == left[i] else !nodes[i].valid)
         && (i in recs ==>
               && nodes[i].valid && nodes[i].symbol == recs[i].symbol
               && nodes[i].frequency == Freq(maxFrequency, recs[i]))
  }

  /** Nodes may differ in their bucket links only. */
  ghost predicate SameButLinks(a: seq<LFUNode>, b: seq<LFUNode>) {
    |a| == |b| && forall i | 0 <= i < |a| :: b[i] == a[i].(freqPrev := b[i].freqPrev, freqNext := b[i].freqNext)
  }

  lemma SplicedSame(nodes: seq<LFUNode>, id: uint32)
    requires FreqLinksInRange(nodes, id)
    ensures SameButLinks(nodes, Spliced(nodes, id))
  {
  }

  lemma NodeFacts(maxFrequency: nat, nodes: seq<LFUNode>, recs: map<nat, Rec>, left: map<nat, int>, id: nat)
    requires NodesOk(maxFrequency, nodes, recs, left) && id in recs
    ensures id < |nodes| && nodes[id].frequency == Freq(maxFrequency, recs[id])
  {
  }

  lemma NodesAfterHit(maxFrequency: nat, a: seq<LFUNode>, b: seq<LFUNode>, c: seq<LFUNode>, recs: map<nat, Rec>,
                      left: map<nat, int>, id: nat, r: Rec)
    requires NodesOk(maxFrequency, a, recs, left) && id in recs && id < |b| && SameButLinks(a, b)
    requires 0 <= Freq(maxFrequency, r) < NULL_IDX && r.symbol == recs[id].symbol
    requires SameButLinks(b[id := b[id].(frequency := Freq(maxFrequency, r))], c)
    ensures NodesOk(maxFrequency, c, recs[id := r], left)
  {
  }

  lemma NodesAfterEviction(maxFrequency: nat, a: seq<LFUNode>, b: seq<LFUNode>, recs: map<nat, Rec>,
                           left: map<nat, int>, id: nat)
    requires NodesOk(maxFrequency, a, recs, left) && id < |b| && SameButLinks(a, b) && id in recs
    ensures NodesOk(maxFrequency, b[id := b[id].(inCache := false)], recs - {id},
                    left[id := Freq(maxFrequency, recs[id])])
  {
  }

  lemma NodesAfterAdmission(maxFrequency: nat, a: seq<LFUNode>, b: seq<LFUNode>, c: seq<LFUNode>, recs: map<nat, Rec>,
                            left: map<nat, int>, id: nat, r: Rec)
    requires NodesOk(maxFrequency, a, recs, left) && id < |a| == |b| && maxFrequency >= 2
    requires b == a[id := b[id]] && b[id].inCache && b[id].valid && b[id].frequency == 1 == r.count
      && b[id].symbol == r.symbol
    requires SameButLinks(b, c)
    ensures NodesOk(maxFrequency, c, recs[id := r], left)
  {
  }

  // ---- the slot arrays ----

  /** The slot arrays hold the slot map and its inverse. */
  ghost predicate SlotArraysOk(bookToSlot: seq<uint32>, slotToBook: seq<uint32>, slotOf: map<nat, nat>) {
    && (forall i | i in slotOf :: i < |bookToSlot| && slotOf[i] < |slotToBook| && slotToBook[slotOf[i]] == i)
    && (forall i | 0 <= i < |bookToSlot| :: bookToSlot[i] == if i in slotOf then slotOf[i] else NULL_IDX)
  }

  /** Books that leave the cache have lost their slot, and nothing else has changed. */
  ghost predicate LeaversCleared(before: seq<uint32>, bookToSlot: seq<uint32>,
                                 slotOf: map<nat, nat>, slotOf': map<nat, nat>) {
    && |bookToSlot| == |before|
    && forall i | 0 <= i < |before| :: bookToSlot[i] == if i in slotOf && i !in slotOf' then NULL_IDX else before[i]
  }

  lemma VictimCleared(before: seq<uint32>, bookToSlot: seq<uint32>, slotOf: map<nat, nat>, slotOf': map<nat, nat>,
                      victim: nat)
    requires victim < |before| && bookToSlot == before[victim := NULL_IDX] && victim in slotOf
    requires forall i | i in slotOf :: i in slotOf' <==> i != victim
    ensures LeaversCleared(before, bookToSlot, slotOf, slotOf')
  {
  }

  lemma SlotOfCached(bookToSlot: seq<uint32>, slotToBook: seq<uint32>, slotOf: map<nat, nat>, id: nat)
    requires SlotArraysOk(bookToSlot, slotToBook, slotOf) && id in slotOf
    ensures id < |bookToSlot| && bookToSlot[id] == slotOf[id] < |slotToBook|
  {
  }

  lemma SlotsAfterMiss(before: seq<uint32>, bookToSlot: seq<uint32>, slotToBook: seq<uint32>,
                       slotOf: map<nat, nat>, slotOf': map<nat, nat>, id: uint32, slot: uint32)
    requires SlotArraysOk(before, slotToBook, slotOf) && id < |bookToSlot| == |before| && slot < |slotToBook|
    requires LeaversCleared(before, bookToSlot, slotOf, slotOf')
    requires SlotsTaken(slotOf, slotOf', id, slot)
    ensures SlotArraysOk(bookToSlot[id := slot], slotToBook[slot := id], slotOf')
  {
  }
}

/** The O(1) bookkeeping of the cache: nodes, buckets, slot maps, the least frequency and the counters. */
module LfuDirectories {
  import opened Machine
  import opened Distinctness
  import opened LfuSpec
  import opened FrequencyLists

  class LFUDirectory {
    const maxSymbols: uint32
    const capacity: uint32
    const maxFrequency: uint32
    const nodes: array<LFUNode>
    const bookToSlot: array<uint32>
    const slotToBook: array<uint32>
    const freqBuckets: array<FreqBucket>
    var minFrequency: uint32
    var cacheSize: uint32
    var hits: uint64
    var misses: uint64
    var evictions: uint64

    /** The bucket lists, and the directory the policy is stated on. */
    ghost var lists: seq<Ids>
    ghost var dir: Directory

    /** For each book that has left the cache, the frequency it had when it last did. */
    ghost var left: map<nat, int>

    ghost function Footprint(): set<object> {
      {this, nodes, bookToSlot, slotToBook, freqBuckets}
    }

    ghost predicate Wired() {
      && 1 <= maxSymbols <= 0x1_0000 && 1 <= capacity < NULL_IDX && 2 <= maxFrequency < NULL_IDX
      && nodes.Length == bookToSlot.Length == maxSymbols && slotToBook.Length == capacity
      && freqBuckets.Length == maxFrequency && bookToSlot != slotToBook
    }

    ghost predicate CountersOk()
      reads this
    {
      && cacheSize == |dir.recs|
      && hits == dir.hits % TWO64 && misses == dir.misses % TWO64 && evictions == dir.evictions % TWO64
    }

    /** Buckets, nodes and slots as they stand for a set of cached books at a time. */
    ghost predicate Tracks(recs: map<nat, Rec>, clock: nat)
      reads this, nodes, freqBuckets
    {
      && Wired()
      && BucketsOk(nodes[..], freqBuckets[..], lists)
      && ListsOk(maxFrequency, lists, recs, clock)
      && NodesOk(maxFrequency, nodes[..], recs, left)
    }

    ghost predicate Valid()
      reads Footprint()
    {
      && DirectoryOk(capacity, dir)
      && Tracks(dir.recs, dir.clock)
      && MinOk(lists, dir.recs, minFrequency)
      && SlotArraysOk(bookToSlot[..], slotToBook[..], dir.slotOf)
      && CountersOk()
    }

    constructor (symbols: uint32, slots: uint32, frequencies: uint32)
      requires 1 <= symbols <= 0x1_0000 && 1 <= slots < NULL_IDX && 2 <= frequencies < NULL_IDX
      ensures Valid() && maxSymbols == symbols && capacity == slots && maxFrequency == frequencies
      ensures dir == EmptyDirectory() && left == map[]
      ensures fresh(nodes) && fresh(bookToSlot) && fresh(slotToBook) && fresh(freqBuckets)
    {
      maxSymbols, capacity, maxFrequency := symbols, slots, frequencies;
      nodes := new LFUNode[symbols](_ => LFUNode(0, [], 0, NULL_IDX, NULL_IDX, false, false));
      bookToSlot := new uint32[symbols](_ => NULL_IDX);
      slotToBook := new uint32[slots](_ => NULL_IDX);
      freqBuckets := new FreqBucket[frequencies](_ => FreqBucket(NULL_IDX, NULL_IDX, 0));
      minFrequency, cacheSize := 0, 0;
      hits, misses, evictions := 0, 0, 0;
      lists := seq(frequencies, _ => []);
      dir := EmptyDirectory();
      left := map[];
    }

    /** Puts an unlisted id at the head of the bucket of its frequency. */
    method AddToBucket(bookId: uint16, freq: uint32)
      requires Wired() && BucketsOk(nodes[..], freqBuckets[..], lists)
      requires bookId < maxSymbols && freq < maxFrequency == |lists| && nodes[bookId].frequency == freq
      requires forall g | 0 <= g < |lists| :: (bookId as int) !in lists[g]
      modifies nodes, freqBuckets, this`lists
      ensures BucketsOk(nodes[..], freqBuckets[..], lists)
      ensures lists == old(lists)[freq := [bookId] + old(lists)[freq]]
      ensures SameButLinks(old(nodes[..]), nodes[..])
    {
      hide BucketsOk, ListOk;
      AddKeepsBuckets(nodes[..], freqBuckets[..], lists, bookId, freq);
      HeadInRange(nodes[..], freqBuckets[..], lists, freq);
      var bucket := freqBuckets[freq];
      nodes[bookId] := nodes[bookId].(freqPrev := NULL_IDX, freqNext := bucket.head);
      if bucket.head != NULL_IDX {
        nodes[bucket.head] := nodes[bucket.head].(freqPrev := bookId);
      } else {
        bucket := bucket.(tail := bookId);
      }
      freqBuckets[freq] := bucket.(head := bookId, count := bucket.count + 1);
      assert nodes[..] == Linked(old(nodes[..]), old(freqBuckets[freq]).head, bookId);
      lists := lists[freq := [bookId as uint32] + lists[freq]];
    }

    /** Takes a listed id out of the bucket of its frequency. */
    method RemoveFromBucket(bookId: uint16, freq: uint32, ghost k: nat)
      requires Wired() && BucketsOk(nodes[..], freqBuckets[..], lists)
      requires freq < maxFrequency && |lists| == maxFrequency && k < |lists[freq]| && lists[freq][k] == bookId
      modifies nodes, freqBuckets, this`lists
      ensures BucketsOk(nodes[..], freqBuckets[..], lists)
      ensures lists == old(lists)[freq := Without(old(lists)[freq], k)]
      ensures freqBuckets[freq].count == |lists[freq]|
      ensures SameButLinks(old(nodes[..]), nodes[..])
    {
      hide BucketsOk, ListOk, SameButLinks;
      RemoveKeepsBuckets(nodes[..], freqBuckets[..], lists, freq, k);
      HeadInRange(nodes[..], freqBuckets[..], lists, freq);
      SpliceRange(nodes[..], freqBuckets[..], lists, freq, k);
      var bucket, node := freqBuckets[freq], nodes[bookId];
      if node.freqPrev != NULL_IDX {
        nodes[node.freqPrev] := nodes[node.freqPrev].(freqNext := node.freqNext);
      } else {
        bucket := bucket.(head := node.freqNext);
      }
      if node.freqNext != NULL_IDX {
        nodes[node.freqNext] := nodes[node.freqNext].(freqPrev := node.freqPrev);
      } else {
        bucket := bucket.(tail := node.freqPrev);
      }
      freqBuckets[freq] := bucket.(count := bucket.count - 1);
      nodes[bookId] := nodes[bookId].(freqPrev := NULL_IDX, freqNext := NULL_IDX);
      assert nodes[..] == Spliced(old(nodes[..]), bookId);
      SplicedSame(old(nodes[..]), bookId);
      lists := lists[freq := Without(lists[freq], k)];
    }

    lemma SpliceRange(ns: seq<LFUNode>, buckets: seq<FreqBucket>, ls: seq<Ids>, f: nat, k: nat)
      requires BucketsOk(ns, buckets, ls) && f < |ls| && k < |ls[f]|
      ensures FreqLinksInRange(ns, ls[f][k]) && ns[ls[f][k]].freqPrev != ls[f][k] && ns[ls[f][k]].freqNext != ls[f][k]
    {
      FreqNeighbours(ns, buckets[f], ls[f], f, k);
    }

    /** One more access to a cached book: it moves to the head of the next bucket, or of its own at the top. */
    method UpdateFrequency(bookId: uint16)
      requires Tracks(dir.recs, dir.clock) && MinOk(lists, dir.recs, minFrequency) && (bookId as int) in dir.recs
      modifies nodes, freqBuckets, this`lists, this`minFrequency
      ensures var r := dir.recs[bookId];
        var recs := dir.recs[bookId as nat := r.(count := r.count + 1, last := dir.clock)];
        Tracks(recs, dir.clock + 1) && MinOk(lists, recs, minFrequency)
    {
      hide BucketsOk, ListsOk, MinOk, NodesOk, SameButLinks;
      ghost var recs, id: nat := dir.recs, bookId;
      ghost var r := recs[id];
      ghost var r' := r.(count := r.count + 1, last := dir.clock);
      ghost var k := PositionOf(maxFrequency, lists, recs, dir.clock, bookId);
      NodeFacts(maxFrequency, nodes[..], recs, left, id);
      ListsRemove(maxFrequency, lists, recs, dir.clock, nodes[bookId].frequency, k);
      MinAfterHit(maxFrequency, lists, recs, dir.clock, minFrequency, bookId, k, r');
      RecCount(maxFrequency, lists, recs, dir.clock, id);
      var oldFreq := nodes[bookId].frequency;
      var newFreq := if oldFreq < maxFrequency - 1 then oldFreq + 1 else oldFreq;
      RemoveFromBucket(bookId, oldFreq, k);
      ghost var spliced := nodes[..];
      ListsAdd(maxFrequency, lists, recs - {id}, dir.clock, bookId, r');
      Unlisted(maxFrequency, lists, recs - {id}, dir.clock, bookId);
      if freqBuckets[oldFreq].count == 0 && oldFreq == minFrequency {
        minFrequency := newFreq;
      }
      NodeChanged(spliced, freqBuckets[..], lists, bookId, spliced[bookId].(frequency := newFreq));
      nodes[bookId] := nodes[bookId].(frequency := newFreq);
      AddToBucket(bookId, newFreq);
      NodesAfterHit(maxFrequency, old(nodes[..]), spliced, nodes[..], recs, left, id, r');
      assert (recs - {id})[id := r'] == recs[id := r'];
    }

    lemma RecCount(f: nat, ls: seq<Ids>, recs: map<nat, Rec>, clock: nat, id: nat)
      requires ListsOk(f, ls, recs, clock) && id in recs
      ensures recs[id].count >= 1 && |ls| == f >= 2
    {
    }

    /** An unlisted node may change freely. */
    lemma NodeChanged(ns: seq<LFUNode>, buckets: seq<FreqBucket>, ls: seq<Ids>, id: uint32, n: LFUNode)
      requires BucketsOk(ns, buckets, ls) && id < |ns| && forall g | 0 <= g < |ls| :: id !in ls[g]
      ensures BucketsOk(ns[id := n], buckets, ls)
    {
      forall f | 0 <= f < |ls| ensures ListOk(ns[id := n], buckets[f], ls[f], f) {
        ListKept(ns, ns[id := n], buckets[f], ls[f], f);
      }
    }

    /** Takes the least used book out and gives its slot back. */
    method EvictLfu() returns (slot: uint32, ghost victim: nat)
      requires Tracks(dir.recs, dir.clock) && MinOk(lists, dir.recs, minFrequency) && dir.recs != map[]
      requires bookToSlot != slotToBook && dir.slotOf.Keys == dir.recs.Keys
      requires SlotArraysOk(bookToSlot[..], slotToBook[..], dir.slotOf)
      modifies nodes, freqBuckets, bookToSlot, this`lists, this`left, this`evictions
      ensures victim == Victim(maxFrequency, dir.recs) && victim in dir.slotOf && slot == dir.slotOf[victim]
      ensures victim in dir.recs && left == old(left)[victim := Freq(maxFrequency, dir.recs[victim])]
      ensures Tracks(Evicted(dir.recs, victim), dir.clock)
      ensures victim < maxSymbols && bookToSlot[..] == old(bookToSlot[..])[victim := NULL_IDX]
      ensures evictions == Next64(old(evictions))
    {
      hide BucketsOk, ListsOk, MinOk, NodesOk, SameButLinks, IsVictim, Victim;
      TailIsVictim(maxFrequency, lists, dir.recs, dir.clock, minFrequency);
      ListBounds(maxFrequency, lists, dir.recs, dir.clock);
      HeadInRange(nodes[..], freqBuckets[..], lists, minFrequency);
      var victimId := freqBuckets[minFrequency].tail;
      ghost var k: nat := |lists[minFrequency]| - 1;
      victim := victimId;
      VictimIsUnique(maxFrequency, dir.recs, victim);
      InVictim(maxFrequency, dir.recs, victim);
      if victimId == NULL_IDX {
        assert false;  // the fallback slot 0 is never needed: the least bucket is not empty
      }
      slot := bookToSlot[victimId];
      ListsRemove(maxFrequency, lists, dir.recs, dir.clock, minFrequency, k);
      RemoveFromBucket(victimId, minFrequency, k);
      Unlisted(maxFrequency, lists, dir.recs - {victim}, dir.clock, victimId);
      NodeChanged(nodes[..], freqBuckets[..], lists, victimId, nodes[victimId].(inCache := false));
      NodesAfterEviction(maxFrequency, old(nodes[..]), nodes[..], dir.recs, left, victim);
      left := left[victim := Freq(maxFrequency, dir.recs[victim])];
      nodes[victimId] := nodes[victimId].(inCache := false);
      bookToSlot[victimId] := NULL_IDX;
      evictions := Next64(evictions);
    }

    lemma ListBounds(f: nat, ls: seq<Ids>, recs: map<nat, Rec>, clock: nat)
      requires ListsOk(f, ls, recs, clock)
      ensures |ls| == f
    {
    }

    lemma InVictim(f: nat, recs: map<nat, Rec>, v: nat)
      requires IsVictim(f, recs, v)
      ensures v in recs
    {
    }

    /** The frequency of a book is kept when it leaves. */
    static ghost function LeftBy(maxFreq: nat, d: Directory, how: Admission, was: map<nat, int>): map<nat, int> {
      if how.Replaced? && how.victim in d.recs then was[how.victim := Freq(maxFreq, d.recs[how.victim])] else was
    }

    /** One access to a book id, cached or not: the whole policy. */
    method Access(bookId: uint16, symbol: seq<uint8>) returns (slot: uint32, miss: bool, ghost how: Admission)
      requires Valid() && bookId < maxSymbols
      modifies Footprint()
      ensures Valid() && slot < capacity && miss == !how.Hit?
      ensures (dir, slot as nat, how) == LfuSpec.Access(capacity, maxFrequency, old(dir), bookId, symbol)
      ensures left == LeftBy(maxFrequency, old(dir), how, old(left))
    {
      hide BucketsOk, ListsOk, MinOk, DirectoryOk, Freq, LfuSpec.Access;
      HitIffCached(bookId, symbol);
      if nodes[bookId].inCache {
        slot, how := Reuse(bookId, symbol);
        miss := false;
      } else {
        slot, how := Replace(bookId, symbol);
        miss := true;
      }
    }

    method IsCached(bookId: uint16) returns (cached: bool)
      requires Valid()
      ensures cached <==> (bookId as int) in dir.recs
    {
      hide BucketsOk, ListsOk, MinOk, DirectoryOk;
      cached := bookId < maxSymbols && nodes[bookId].inCache;
    }

    /** The slot of a cached book, or the null index. */
    method SlotOf(bookId: uint16) returns (slot: uint32)
      requires Valid()
      ensures slot == if (bookId as int) in dir.slotOf then dir.slotOf[bookId] else NULL_IDX
      ensures slot == NULL_IDX || slot < capacity
      ensures slot == NULL_IDX <==> (bookId as int) !in dir.slotOf
    {
      hide BucketsOk, ListsOk, MinOk, SlotsOk, TimesOk;
      var cached := IsCached(bookId);
      slot := if cached then bookToSlot[bookId] else NULL_IDX;
    }

    /**
     * The tracked frequency: for a cached book its uses since admission, up to the bound; for one that has left
     * the cache that number when it last did; 0 for any other id.
     */
    method GetFrequency(bookId: uint16) returns (f: uint32)
      requires Valid()
      ensures f == if (bookId as int) in dir.recs then Freq(maxFrequency, dir.recs[bookId])
                   else if (bookId as int) in left then left[bookId] else 0
    {
      hide BucketsOk, ListsOk, MinOk, DirectoryOk;
      if bookId >= maxSymbols || !nodes[bookId].valid { return 0; }
      f := nodes[bookId].frequency;
    }

    lemma HitIffCached(bookId: uint16, symbol: seq<uint8>)
      requires Valid() && bookId < maxSymbols
      ensures nodes[bookId].inCache <==> (bookId as int) in dir.recs
      ensures dir.slotOf.Keys == dir.recs.Keys
    {
    }

    /** A hit. */
    method Reuse(bookId: uint16, symbol: seq<uint8>) returns (slot: uint32, ghost how: Admission)
      requires Valid() && bookId < maxSymbols && (bookId as int) in dir.recs
      modifies Footprint()
      ensures Valid() && slot < capacity && how == Hit
      ensures (dir, slot as nat, how) == LfuSpec.Access(capacity, maxFrequency, old(dir), bookId, symbol)
      ensures left == LeftBy(maxFrequency, old(dir), how, old(left))
    {
      hide BucketsOk, ListsOk, NodesOk, MinOk, DirectoryOk, SlotArraysOk, LfuSpec.Access;
      HitFacts(capacity, maxFrequency, dir, bookId, symbol);
      SlotOfCached(bookToSlot[..], slotToBook[..], dir.slotOf, bookId);
      hits := Next64(hits);
      UpdateFrequency(bookId);
      slot := bookToSlot[bookId];
      how := Hit;
      dir := LfuSpec.Access(capacity, maxFrequency, dir, bookId, symbol).0;
    }

    /** A miss: the book takes the next slot, or that of the least used book when the cache is full. */
    method Replace(bookId: uint16, symbol: seq<uint8>) returns (slot: uint32, ghost how: Admission)
      requires Valid() && bookId < maxSymbols && (bookId as int) !in dir.recs
      modifies Footprint()
      ensures Valid() && slot < capacity && !how.Hit?
      ensures (dir, slot as nat, how) == LfuSpec.Access(capacity, maxFrequency, old(dir), bookId, symbol)
      ensures left == LeftBy(maxFrequency, old(dir), how, old(left))
    {
      hide BucketsOk, ListsOk, NodesOk, MinOk, DirectoryOk, SlotArraysOk, SlotsTaken, LfuSpec.Access, Victim;
      MissFacts(capacity, maxFrequency, dir, bookId, symbol);
      misses := Next64(misses);
      if cacheSize < capacity {
        slot, how := TakeNextSlot(bookId, symbol);
      } else {
        slot, how := TakeVictimSlot(bookId, symbol);
      }
    }

    method TakeNextSlot(bookId: uint16, symbol: seq<uint8>) returns (slot: uint32, ghost how: Admission)
      requires Counted(bookId) && cacheSize < capacity
      modifies Footprint()
      ensures Valid() && slot < capacity && !how.Hit?
      ensures (dir, slot as nat, how) == LfuSpec.Access(capacity, maxFrequency, old(dir), bookId, symbol)
      ensures left == LeftBy(maxFrequency, old(dir), how, old(left))
    {
      hide BucketsOk, ListsOk, NodesOk, MinOk, DirectoryOk, SlotArraysOk, SlotsTaken, LfuSpec.Access, WithNew;
      MissFacts(capacity, maxFrequency, dir, bookId, symbol);
      AdmitFacts(capacity, maxFrequency, dir, bookId, symbol);
      ghost var next := LfuSpec.Access(capacity, maxFrequency, dir, bookId, symbol);
      how := next.2;
      slot := cacheSize;
      cacheSize := cacheSize + 1;
      Settle(bookId, symbol, slot, bookToSlot[..], dir.recs, next.0);
    }

    method TakeVictimSlot(bookId: uint16, symbol: seq<uint8>) returns (slot: uint32, ghost how: Admission)
      requires Counted(bookId) && cacheSize == capacity
      modifies Footprint()
      ensures Valid() && slot < capacity && !how.Hit?
      ensures (dir, slot as nat, how) == LfuSpec.Access(capacity, maxFrequency, old(dir), bookId, symbol)
      ensures left == LeftBy(maxFrequency, old(dir), how, old(left))
    {
      hide BucketsOk, ListsOk, NodesOk, MinOk, DirectoryOk, SlotArraysOk, SlotsTaken, LfuSpec.Access, Victim, Evicted,
        WithNew;
      assert Wired();
      hide Tracks;
      MissFacts(capacity, maxFrequency, dir, bookId, symbol);
      ReplaceFacts(capacity, maxFrequency, dir, bookId, symbol);
      ghost var next := LfuSpec.Access(capacity, maxFrequency, dir, bookId, symbol);
      ghost var before := bookToSlot[..];
      how := next.2;
      ghost var victim;
      slot, victim := EvictLfu();
      VictimCleared(before, bookToSlot[..], dir.slotOf, next.0.slotOf, victim);
      Settle(bookId, symbol, slot, before, Evicted(dir.recs, victim), next.0);
    }

    /** A miss has been counted, and nothing else has been done about it yet. */
    ghost predicate Counted(bookId: uint16)
      reads Footprint()
    {
      && DirectoryOk(capacity, dir)
      && Tracks(dir.recs, dir.clock)
      && MinOk(lists, dir.recs, minFrequency)
      && SlotArraysOk(bookToSlot[..], slotToBook[..], dir.slotOf)
      && bookId < maxSymbols && (bookId as int) !in dir.recs && cacheSize == |dir.recs|
      && hits == dir.hits % TWO64 && misses == (dir.misses + 1) % TWO64 && evictions == dir.evictions % TWO64
    }

    /** The second half of a miss: the node of the new book and its slot. */
    method Settle(bookId: uint16, symbol: seq<uint8>, slot: uint32, ghost before: seq<uint32>,
                  ghost kept: map<nat, Rec>, ghost next: Directory)
      requires Tracks(kept, dir.clock) && bookId < maxSymbols && slot < capacity && (bookId as int) !in kept
      requires DirectoryOk(capacity, next) && next.clock == dir.clock + 1
      requires next.recs == WithNew(kept, bookId, symbol, dir.clock)
      requires SlotsTaken(dir.slotOf, next.slotOf, bookId, slot)
      requires |before| == bookToSlot.Length && SlotArraysOk(before, slotToBook[..], dir.slotOf)
      requires LeaversCleared(before, bookToSlot[..], dir.slotOf, next.slotOf)
      requires cacheSize == |next.recs|
      requires hits == next.hits % TWO64 && misses == next.misses % TWO64 && evictions == next.evictions % TWO64
      modifies Footprint()
      ensures Valid() && dir == next && left == old(left)
    {
      hide BucketsOk, ListsOk, NodesOk, MinOk, DirectoryOk, SlotArraysOk, SlotsTaken;
      SlotsAfterMiss(before, bookToSlot[..], slotToBook[..], dir.slotOf, next.slotOf, bookId, slot);
      Admit(bookId, symbol, kept);
      bookToSlot[bookId] := slot;
      slotToBook[slot] := bookId;
      dir := next;
    }

    /** Sets up the node of a newly cached book in bucket 1, which is then the least. */
    method Admit(bookId: uint16, symbol: seq<uint8>, ghost kept: map<nat, Rec>)
      requires Tracks(kept, dir.clock) && bookId < maxSymbols && (bookId as int) !in kept
      modifies nodes, freqBuckets, this`lists, this`minFrequency
      ensures var recs := WithNew(kept, bookId, symbol, dir.clock);
        Tracks(recs, dir.clock + 1) && MinOk(lists, recs, minFrequency)
    {
      hide BucketsOk, ListsOk, MinOk, NodesOk, SameButLinks;
      ghost var id: nat, r := bookId, Rec(symbol, 1, dir.clock);
      ListBounds(maxFrequency, lists, kept, dir.clock);
      Unlisted(maxFrequency, lists, kept, dir.clock, bookId);
      NoZeroFrequency(maxFrequency, lists, kept, dir.clock);
      MinAfterMiss(lists, kept[id := r], bookId);
      ListsAdd(maxFrequency, lists, kept, dir.clock, bookId, r);
      var node := nodes[bookId].(bookId := bookId, symbol := symbol, inCache := true, valid := true, frequency := 1);
      NodeChanged(nodes[..], freqBuckets[..], lists, bookId, node);
      nodes[bookId] := node;
      ghost var set' := nodes[..];
      AddToBucket(bookId, 1);
      minFrequency := 1;
      NodesAfterAdmission(maxFrequency, old(nodes[..]), set', nodes[..], kept, left, id, r);
    }
  }
}
