/**
 * The cache policy on values: who is cached, how often and when each was used, and in which slot.
 * The least used book goes first, and of those the one used least recently.
 */
module LfuSpec {
  import opened Machine

  /** What the policy knows about a cached book: accesses since admission, and the time of the last one. */
  datatype Rec = Rec(symbol: seq<uint8>, count: nat, last: nat)

  datatype Directory = Directory(recs: map<nat, Rec>, slotOf: map<nat, nat>, clock: nat,
                                 hits: nat, misses: nat, evictions: nat)

  /** The tracked frequency saturates one below its bound. */
  function Freq(maxFrequency: nat, r: Rec): (f: int) {
    Min(r.count, maxFrequency - 1)
  }

  predicate Before(maxFrequency: nat, a: Rec, b: Rec) {
    Freq(maxFrequency, a) < Freq(maxFrequency, b) ||
    (Freq(maxFrequency, a) == Freq(maxFrequency, b) && a.last < b.last)
  }

  /** v comes strictly before every other cached book in (frequency, time of last access). */
  ghost predicate IsVictim(maxFrequency: nat, recs: map<nat, Rec>, v: nat) {
    v in recs && forall j | j in recs && j != v :: Before(maxFrequency, recs[v], recs[j])
  }

  ghost function Victim(maxFrequency: nat, recs: map<nat, Rec>): (v: nat) {
    if v: nat :| IsVictim(maxFrequency, recs, v) then v else 0
  }

  lemma VictimIsUnique(maxFrequency: nat, recs: map<nat, Rec>, v: nat)
    requires IsVictim(maxFrequency, recs, v)
    ensures Victim(maxFrequency, recs) == v
  {
  }

  /** The map with id in place of v. */
  function Replace<V>(m: map<nat, V>, v: nat, id: nat, x: V): (r: map<nat, V>)
    ensures forall k :: k in r <==> k == id || (k in m && k != v)
    ensures forall k | k in r :: r[k] == if k == id then x else m[k]
  {
    (m - {v})[id := x]
  }

  function Evicted(recs: map<nat, Rec>, v: nat): (r: map<nat, Rec>) {
    recs - {v}
  }

  /** The records with a book admitted now. */
  function WithNew(recs: map<nat, Rec>, id: nat, symbol: seq<uint8>, clock: nat): (r: map<nat, Rec>) {
    recs[id := Rec(symbol, 1, clock)]
  }

  lemma ReplaceSize<V>(m: map<nat, V>, v: nat, id: nat, x: V)
    requires v in m && id !in m
    ensures |Replace(m, v, id, x)| == |m|
  {
  }

  datatype Admission = Hit | Admitted | Replaced(victim: nat)

  /** One access: the new directory, the slot of the book, and how it came to be there. */
  ghost function Access(capacity: nat, maxFrequency: nat, d: Directory, id: nat, symbol: seq<uint8>)
    : (r: (Directory, nat, Admission))
    requires d.slotOf.Keys == d.recs.Keys
    ensures r.0.slotOf.Keys == r.0.recs.Keys && id in r.0.recs && r.0.slotOf[id] == r.1
  {
    var now := d.(clock := d.clock + 1);
    var fresh' := Rec(symbol, 1, d.clock);
    if id in d.recs then
      var r := d.recs[id];
      (now.(recs := d.recs[id := Rec(r.symbol, r.count + 1, d.clock)], hits := d.hits + 1), d.slotOf[id], Hit)
    else if |d.recs| < capacity then
      (now.(recs := d.recs[id := fresh'], slotOf := d.slotOf[id := |d.recs|], misses := d.misses + 1),
       |d.recs|, Admitted)
    else
      var v := Victim(maxFrequency, d.recs);
      var slot := if v in d.slotOf then d.slotOf[v] else 0;
      (now.(recs := Replace(d.recs, v, id, fresh'), slotOf := Replace(d.slotOf, v, id, slot),
            misses := d.misses + 1, evictions := d.evictions + 1), slot, Replaced(v))
  }

  function EmptyDirectory(): Directory {
    Directory(map[], map[], 0, 0, 0, 0)
  }

  predicate SlotUsed(slotOf: map<nat, nat>, s: nat) {
    exists i :: i in slotOf && slotOf[i] == s
  }

  /** Cached books and slots 0..n-1 are in one-to-one correspondence. */
  ghost predicate SlotsOk(slotOf: map<nat, nat>, n: nat) {
    && (forall i | i in slotOf :: slotOf[i] < n)
    && (forall i, j | i in slotOf && j in slotOf && i != j :: slotOf[i] != slotOf[j])
    && (forall s | 0 <= s < n :: SlotUsed(slotOf, s))
  }

  /** Accesses lie in the past and have distinct times. */
  ghost predicate TimesOk(recs: map<nat, Rec>, clock: nat) {
    && (forall i | i in recs :: recs[i].last < clock && recs[i].count >= 1)
    && (forall i, j | i in recs && j in recs && i != j :: recs[i].last != recs[j].last)
  }

  ghost predicate DirectoryOk(capacity: nat, d: Directory) {
    && d.slotOf.Keys == d.recs.Keys && |d.recs| <= capacity
    && SlotsOk(d.slotOf, |d.recs|) && TimesOk(d.recs, d.clock)
    && d.misses == |d.recs| + d.evictions && d.clock == d.hits + d.misses
  }

  lemma SlotsAdd(slotOf: map<nat, nat>, n: nat, id: nat)
    requires SlotsOk(slotOf, n) && id !in slotOf
    ensures SlotsOk(slotOf[id := n], n + 1)
  {
    var after := slotOf[id := n];
    forall s | 0 <= s < n + 1 ensures SlotUsed(after, s) {
      if s < n {
        assert SlotUsed(slotOf, s);
        var i :| i in slotOf && slotOf[i] == s;
        assert after[i] == s;
      } else {
        assert after[id] == s;
      }
    }
  }

  lemma SlotsReplace(slotOf: map<nat, nat>, n: nat, v: nat, id: nat)
    requires SlotsOk(slotOf, n) && v in slotOf && id !in slotOf
    ensures var after := Replace(slotOf, v, id, slotOf[v]);
      && SlotsOk(after, n) && slotOf[v] < n
      && forall i | i in slotOf && i in after && i != id :: after[i] == slotOf[i] != slotOf[v]
  {
    var after := Replace(slotOf, v, id, slotOf[v]);
    forall s | 0 <= s < n ensures SlotUsed(after, s) {
      assert SlotUsed(slotOf, s);
      var i :| i in slotOf && slotOf[i] == s;
      assert after[if i == v then id else i] == s;
    }
  }

  lemma TimesNext(recs: map<nat, Rec>, clock: nat, id: nat, r: Rec)
    requires TimesOk(recs, clock) && r.last == clock && r.count >= 1
    ensures TimesOk(recs[id := r], clock + 1)
  {
  }

  lemma TimesReplace(recs: map<nat, Rec>, clock: nat, v: nat, id: nat, r: Rec)
    requires TimesOk(recs, clock) && r.last == clock && r.count >= 1
    ensures TimesOk(Replace(recs, v, id, r), clock + 1)
  {
  }

  lemma {:induction false} VictimExists(maxFrequency: nat, recs: map<nat, Rec>) returns (v: nat)
    requires |recs| > 0
    requires forall i, j | i in recs && j in recs && i != j :: recs[i].last != recs[j].last
    ensures IsVictim(maxFrequency, recs, v)
    decreases |recs|
  {
    var i :| i in recs;
    if |recs| == 1 {
      v := i;
      forall j | j in recs ensures j == i {
        assert |recs.Keys| == |recs| && |recs.Keys - {i}| == 0;
        assert j != i ==> j in recs.Keys - {i};
      }
    } else {
      var rest := recs - {i};
      assert rest.Keys == recs.Keys - {i} && |rest.Keys| == |rest| && |recs.Keys| == |recs|;
      var w := VictimExists(maxFrequency, rest);
      v := if Before(maxFrequency, recs[i], recs[w]) then i else w;
      forall j | j in recs && j != v ensures Before(maxFrequency, recs[v], recs[j]) {
        if j != i && j != w { assert j in rest && Before(maxFrequency, rest[w], rest[j]); }
      }
    }
  }

  /** What an access may do: reuse, take the next slot, or take over the victim's; nobody else moves. */
  ghost predicate AccessOk(capacity: nat, maxFrequency: nat, d: Directory, id: nat, d': Directory, slot: nat,
                           how: Admission) {
    && DirectoryOk(capacity, d') && slot < |d'.recs| && id in d'.recs && d'.slotOf[id] == slot
    && (forall i | i in d.slotOf && i in d'.slotOf && i != id :: d'.slotOf[i] == d.slotOf[i] != slot)
    && match how
       case Hit => id in d.recs && d'.slotOf == d.slotOf && d'.recs.Keys == d.recs.Keys
       case Admitted => id !in d.recs && slot == |d.recs| && (forall k :: k in d'.recs <==> k == id || k in d.recs)
       case Replaced(v) => id !in d.recs && IsVictim(maxFrequency, d.recs, v) && v in d.slotOf && d.slotOf[v] == slot
                           && |d.recs| == capacity && (forall k :: k in d'.recs <==> k == id || (k in d.recs && k != v))
  }

  lemma HitOk(capacity: nat, maxFrequency: nat, d: Directory, id: nat, symbol: seq<uint8>)
    requires DirectoryOk(capacity, d) && id in d.recs
    ensures var (d', slot, how) := Access(capacity, maxFrequency, d, id, symbol);
      AccessOk(capacity, maxFrequency, d, id, d', slot, how)
  {
    hide SlotsOk, TimesOk;
    var r := Rec(d.recs[id].symbol, d.recs[id].count + 1, d.clock);
    TimesNext(d.recs, d.clock, id, r);
    SlotsApart(d.slotOf, |d.recs|, id);
    assert d.recs[id := r].Keys == d.recs.Keys;
    assert |d.recs[id := r]| == |d.recs|;
  }

  lemma AdmittedOk(capacity: nat, maxFrequency: nat, d: Directory, id: nat, symbol: seq<uint8>)
    requires DirectoryOk(capacity, d) && id !in d.recs && |d.recs| < capacity
    ensures var (d', slot, how) := Access(capacity, maxFrequency, d, id, symbol);
      AccessOk(capacity, maxFrequency, d, id, d', slot, how)
  {
    hide SlotsOk, TimesOk;
    var r := Rec(symbol, 1, d.clock);
    TimesNext(d.recs, d.clock, id, r);
    SlotsAdd(d.slotOf, |d.recs|, id);
    SlotsApart(d.slotOf[id := |d.recs|], |d.recs| + 1, id);
    assert |d.recs[id := r]| == |d.recs| + 1;
  }

  lemma ReplacedOk(capacity: nat, maxFrequency: nat, d: Directory, id: nat, symbol: seq<uint8>)
    requires capacity >= 1 && DirectoryOk(capacity, d) && id !in d.recs && |d.recs| == capacity
    ensures var (d', slot, how) := Access(capacity, maxFrequency, d, id, symbol);
      AccessOk(capacity, maxFrequency, d, id, d', slot, how)
  {
    hide SlotsOk, TimesOk, Replace, IsVictim;
    var r := Rec(symbol, 1, d.clock);
    var v := FindVictim(maxFrequency, d.recs, d.clock);
    TimesReplace(d.recs, d.clock, v, id, r);
    SlotsReplace(d.slotOf, |d.recs|, v, id);
    ReplaceSize(d.recs, v, id, r);
    var (d', slot, how) := Access(capacity, maxFrequency, d, id, symbol);
    assert how == Replaced(v) && slot == d.slotOf[v];
    assert d'.recs == Replace(d.recs, v, id, r) && d'.slotOf == Replace(d.slotOf, v, id, slot);
    assert DirectoryOk(capacity, d');
  }

  /**
   * An access keeps the directory well formed. A miss takes the next slot while there is one; then it
   * replaces the least used book, taking over exactly that book's slot. Nobody else moves.
   */
  lemma AccessKeepsDirectory(capacity: nat, maxFrequency: nat, d: Directory, id: nat, symbol: seq<uint8>)
    requires capacity >= 1 && DirectoryOk(capacity, d)
    ensures var (d', slot, how) := Access(capacity, maxFrequency, d, id, symbol);
      AccessOk(capacity, maxFrequency, d, id, d', slot, how)
  {
    hide AccessOk, SlotsOk, TimesOk;
    if id in d.recs {
      HitOk(capacity, maxFrequency, d, id, symbol);
    } else if |d.recs| < capacity {
      AdmittedOk(capacity, maxFrequency, d, id, symbol);
    } else {
      ReplacedOk(capacity, maxFrequency, d, id, symbol);
    }
  }

  lemma HitFacts(capacity: nat, maxFrequency: nat, d: Directory, id: nat, symbol: seq<uint8>)
    requires DirectoryOk(capacity, d) && id in d.recs
    ensures d.slotOf.Keys == d.recs.Keys
    ensures var (d', slot, how) := Access(capacity, maxFrequency, d, id, symbol);
      && DirectoryOk(capacity, d') && id in d.slotOf && slot == d.slotOf[id] < capacity && how == Hit
      && d' == d.(recs := d.recs[id := d.recs[id].(count := d.recs[id].count + 1, last := d.clock)],
                  clock := d.clock + 1, hits := d.hits + 1)
      && |d'.recs| == |d.recs|
  {
    HitOk(capacity, maxFrequency, d, id, symbol);
  }

  /** A new book has taken a slot that no remaining book is in; the remaining ones stay where they were. */
  ghost predicate SlotsTaken(slotOf: map<nat, nat>, slotOf': map<nat, nat>, id: nat, slot: nat) {
    && id !in slotOf && id in slotOf' && slotOf'[id] == slot
    && forall i | i in slotOf' && i != id :: i in slotOf && slotOf'[i] == slotOf[i] != slot
  }

  lemma MissFacts(capacity: nat, maxFrequency: nat, d: Directory, id: nat, symbol: seq<uint8>)
    requires capacity >= 1 && DirectoryOk(capacity, d) && id !in d.recs
    ensures d.slotOf.Keys == d.recs.Keys
    ensures var (d', slot, how) := Access(capacity, maxFrequency, d, id, symbol);
      && DirectoryOk(capacity, d') && slot < capacity && !how.Hit? && |d.recs| <= capacity
      && d'.clock == d.clock + 1 && d'.hits == d.hits && d'.misses == d.misses + 1
      && SlotsTaken(d.slotOf, d'.slotOf, id, slot)
  {
    hide TimesOk, IsVictim, SlotsOk, Access;
    AccessKeepsDirectory(capacity, maxFrequency, d, id, symbol);
    AccessCounts(capacity, maxFrequency, d, id, symbol);
  }

  lemma AccessCounts(capacity: nat, maxFrequency: nat, d: Directory, id: nat, symbol: seq<uint8>)
    requires d.slotOf.Keys == d.recs.Keys && id !in d.recs
    ensures var d' := Access(capacity, maxFrequency, d, id, symbol).0;
      d'.clock == d.clock + 1 && d'.hits == d.hits && d'.misses == d.misses + 1
  {
  }

  /** A miss while there are free slots. */
  lemma AdmitFacts(capacity: nat, maxFrequency: nat, d: Directory, id: nat, symbol: seq<uint8>)
    requires capacity >= 1 && DirectoryOk(capacity, d) && id !in d.recs && |d.recs| < capacity
    ensures var (d', slot, how) := Access(capacity, maxFrequency, d, id, symbol);
      && how == Admitted && slot == |d.recs| && |d'.recs| == |d.recs| + 1 && d'.evictions == d.evictions
      && d'.recs == WithNew(d.recs, id, symbol, d.clock) && forall i | i in d.slotOf :: i in d'.slotOf
  {
  }

  /** A miss when every slot is taken. */
  lemma ReplaceFacts(capacity: nat, maxFrequency: nat, d: Directory, id: nat, symbol: seq<uint8>)
    requires capacity >= 1 && DirectoryOk(capacity, d) && id !in d.recs && |d.recs| == capacity
    ensures var (d', slot, how) := Access(capacity, maxFrequency, d, id, symbol);
      var v := Victim(maxFrequency, d.recs);
      && how == Replaced(v) && v in d.recs && d.recs != map[]
      && v in d.slotOf && slot == d.slotOf[v] && |d'.recs| == capacity
      && d'.evictions == d.evictions + 1
      && id !in Evicted(d.recs, v) && d'.recs == WithNew(Evicted(d.recs, v), id, symbol, d.clock)
      && forall i | i in d.slotOf :: i in d'.slotOf <==> i != v
  {
    hide TimesOk, IsVictim, SlotsOk;
    var v := FindVictim(maxFrequency, d.recs, d.clock);
    ReplaceSize(d.recs, v, id, Rec(symbol, 1, d.clock));
  }

  lemma SlotsApart(slotOf: map<nat, nat>, n: nat, id: nat)
    requires SlotsOk(slotOf, n) && id in slotOf
    ensures slotOf[id] < n && forall i | i in slotOf && i != id :: slotOf[i] != slotOf[id]
  {
  }

  lemma FindVictim(maxFrequency: nat, recs: map<nat, Rec>, clock: nat) returns (v: nat)
    requires |recs| > 0 && TimesOk(recs, clock)
    ensures v in recs && IsVictim(maxFrequency, recs, v) && v == Victim(maxFrequency, recs)
  {
    v := VictimExists(maxFrequency, recs);
    VictimIsUnique(maxFrequency, recs, v);
  }
}
