/**
 * A book on values: for each side and price the queue of resting orders in arrival order, the
 * 32-bit level total the engine keeps beside it, and the best price. The classes MBOBook and
 * MBOBookWithBIT are proved to implement these functions; what holds of runs is proved here.
 */
module BookSpec {
  import opened Machine
  import opened Distinctness
  import opened Pool

  datatype Entry = Entry(slot: uint32, id: uint64, qty: uint32)
  type Queue = seq<Entry>

  datatype Side = Side(queues: seq<Queue>, level: seq<uint32>, best: uint32)

  /** How an emptied best level is repaired: by scanning level totals, or by lifting in the volume tree. */
  datatype Rule = Scan | Lifting

  function Volume(q: Queue): (v: nat) {
    if q == [] then 0 else q[0].qty + Volume(q[1..])
  }

  function Slots(q: Queue): (s: seq<uint32>) {
    seq(|q|, k requires 0 <= k < |q| => q[k].slot)
  }

  /** The slots of all queues, level by level. */
  function Flat(queues: seq<Queue>): (s: seq<uint32>) {
    if queues == [] then [] else Flat(queues[..|queues| - 1]) + Slots(queues[|queues| - 1])
  }

  function Volumes(queues: seq<Queue>): (v: seq<int>) {
    seq(|queues|, p requires 0 <= p < |queues| => Volume(queues[p]))
  }

  function NoBest(isBid: bool): uint32 {
    if isBid then 0 else INVALID_PRICE
  }

  predicate Shaped(isBid: bool, s: Side) {
    && 1 <= |s.queues| == |s.level| < 0x8000_0000
    && (s.best < |s.queues| || s.best == NoBest(isBid))
  }

  /** The prices a better best price would have. */
  predicate Beyond(isBid: bool, p: nat, best: nat) {
    if isBid then p > best else p < best
  }

  // ---- volumes of queues ----

  lemma {:induction false} VolumeConcat(a: Queue, b: Queue)
    ensures Volume(a + b) == Volume(a) + Volume(b)
    decreases |a|
  {
    if a == [] {
      assert a + b == b;
    } else {
      assert (a + b)[1..] == a[1..] + b;
      VolumeConcat(a[1..], b);
    }
  }

  lemma VolumeAppend(q: Queue, e: Entry)
    ensures Volume(q + [e]) == Volume(q) + e.qty
  {
    VolumeConcat(q, [e]);
  }

  lemma VolumeWithout(q: Queue, k: nat)
    requires k < |q|
    ensures Volume(Without(q, k)) == Volume(q) - q[k].qty
  {
    VolumeConcat(q[..k], q[k + 1..]);
    VolumeConcat(q[..k], [q[k]] + q[k + 1..]);
    VolumeConcat([q[k]], q[k + 1..]);
    assert q == q[..k] + ([q[k]] + q[k + 1..]);
  }

  lemma HeadOff(q: Queue)
    requires q != []
    ensures Without(q, 0) == q[1..] && Volume(q) == q[0].qty + Volume(q[1..])
  {
  }

  lemma AddVolumes(queues: seq<Queue>, p: nat, e: Entry)
    requires p < |queues|
    ensures Volumes(queues[p := queues[p] + [e]]) == Volumes(queues)[p := Volumes(queues)[p] + e.qty]
  {
    VolumeAppend(queues[p], e);
  }

  lemma DropVolumes(queues: seq<Queue>, p: nat, k: nat)
    requires p < |queues| && k < |queues[p]|
    ensures Volumes(queues[p := Without(queues[p], k)]) == Volumes(queues)[p := Volumes(queues)[p] - queues[p][k].qty]
  {
    VolumeWithout(queues[p], k);
  }

  lemma ShrinkVolumes(queues: seq<Queue>, p: nat, qty: nat)
    requires p < |queues| && queues[p] != [] && qty <= queues[p][0].qty
    ensures Volumes(queues[p := [queues[p][0].(qty := queues[p][0].qty - qty)] + queues[p][1..]])
         == Volumes(queues)[p := Volumes(queues)[p] - qty]
  {
  }

  // ---- repairing the best price ----

  function ScanDown(level: seq<uint32>, b: uint32): (r: uint32)
    requires b < |level|
    ensures r <= b && (r == 0 || level[r] != 0) && forall p | r < p <= b :: level[p] == 0
  {
    if b > 0 && level[b] == 0 then ScanDown(level, b - 1) else b
  }

  function ScanUp(level: seq<uint32>, a: uint32): (r: uint32)
    requires |level| < 0x8000_0000
    ensures r >= a && (a < |level| ==> r <= |level|)
    ensures r < |level| ==> level[r] != 0
    ensures forall p | a <= p < r && p < |level| :: level[p] == 0
    decreases |level| - a
  {
    if a < |level| && level[a] == 0 then ScanUp(level, a + 1) else a
  }

  /** The linear search from the current best price, as both scanning books do it. */
  function ScanBest(isBid: bool, level: seq<uint32>, best: uint32): (r: uint32)
    requires 1 <= |level| < 0x8000_0000 && (isBid ==> best < |level|)
  {
    if isBid then
      var b := ScanDown(level, best);
      if level[b] == 0 then 0 else b
    else
      var a := ScanUp(level, best);
      if a >= |level| || level[a] == 0 then INVALID_PRICE else a
  }

  /** p is the best price with volume: the highest for bids, the lowest for asks. */
  ghost predicate IsBest(isBid: bool, queues: seq<Queue>, p: nat) {
    p < |queues| && Volume(queues[p]) > 0 &&
    forall t | 0 <= t < |queues| && Beyond(isBid, t, p) :: Volume(queues[t]) == 0
  }

  /** The highest price below n with volume, or -1. */
  function Highest(queues: seq<Queue>, n: nat): (r: int)
    requires n <= |queues|
    ensures -1 <= r < n && (r >= 0 ==> Volume(queues[r]) > 0)
    ensures forall t | r < t < n :: Volume(queues[t]) == 0
  {
    if n == 0 then -1 else if Volume(queues[n - 1]) > 0 then n - 1 else Highest(queues, n - 1)
  }

  /** The lowest price from i on with volume, or the number of prices. */
  function Lowest(queues: seq<Queue>, i: nat): (r: nat)
    requires i <= |queues|
    ensures i <= r <= |queues| && (r < |queues| ==> Volume(queues[r]) > 0)
    ensures forall t | i <= t < r :: Volume(queues[t]) == 0
    decreases |queues| - i
  {
    if i == |queues| || Volume(queues[i]) > 0 then i else Lowest(queues, i + 1)
  }

  /** The best price with volume, or the side's empty value. */
  function VolumeBest(isBid: bool, queues: seq<Queue>): (r: uint32)
    requires |queues| < 0x8000_0000
    ensures IsBest(isBid, queues, r) || (r == NoBest(isBid) && forall t | 0 <= t < |queues| :: Volume(queues[t]) == 0)
  {
    if isBid then
      var h := Highest(queues, |queues|);
      if h < 0 then 0 else h
    else
      var l := Lowest(queues, 0);
      if l == |queues| then INVALID_PRICE else l
  }

  lemma BestIsUnique(isBid: bool, queues: seq<Queue>, p: nat)
    requires |queues| < 0x8000_0000
    ensures IsBest(isBid, queues, p) ==> VolumeBest(isBid, queues) == p
    ensures (forall t | 0 <= t < |queues| :: Volume(queues[t]) == 0) ==> VolumeBest(isBid, queues) == NoBest(isBid)
  {
  }

  function Repair(rule: Rule, isBid: bool, s: Side): (r: uint32)
    requires Shaped(isBid, s) && s.best < |s.queues|
    ensures r < |s.queues| || r == NoBest(isBid)
  {
    match rule
    case Scan => ScanBest(isBid, s.level, s.best)
    case Lifting => VolumeBest(isBid, s.queues)
  }

  // ---- operations on one side ----

  function AddSide(isBid: bool, s: Side, p: uint32, e: Entry): (r: Side)
    requires Shaped(isBid, s) && p < |s.queues|
    ensures Shaped(isBid, r) && |r.queues| == |s.queues|
  {
    Side(s.queues[p := s.queues[p] + [e]],
         s.level[p := (s.level[p] + e.qty) % TWO32],
         if Beyond(isBid, p, s.best) then p else s.best)
  }

  /** Takes the order at position k out of the queue at p; the level total is clamped at zero. */
  function DropSide(rule: Rule, isBid: bool, s: Side, p: uint32, k: nat): (r: Side)
    requires Shaped(isBid, s) && p < |s.queues| && k < |s.queues[p]|
    ensures Shaped(isBid, r) && r.queues == s.queues[p := Without(s.queues[p], k)]
  {
    var qty := s.queues[p][k].qty;
    var left := if s.level[p] >= qty then s.level[p] - qty else 0;
    var d := Side(s.queues[p := Without(s.queues[p], k)], s.level[p := left], s.best);
    if p == d.best && left == 0 then d.(best := Repair(rule, isBid, d)) else d
  }

  /** A partial fill of the order at the head of the queue at p. */
  function ShrinkSide(s: Side, p: uint32, qty: uint32): (r: Side)
    requires p < |s.queues| == |s.level| && s.queues[p] != [] && qty <= s.queues[p][0].qty
  {
    var head := s.queues[p][0];
    s.(queues := s.queues[p := [head.(qty := head.qty - qty)] + s.queues[p][1..]],
       level := s.level[p := (s.level[p] - qty) % TWO32])
  }

  datatype Fill = Fill(side: Side, filled: nat, released: seq<uint32>)

  /** Consumes the queue at p from its head while quantity is left. */
  function TradeSide(rule: Rule, isBid: bool, s: Side, p: uint32, qty: uint32): (r: Fill)
    requires Shaped(isBid, s) && p < |s.queues|
    ensures Shaped(isBid, r.side) && |r.side.queues| == |s.queues| && r.filled <= qty
    decreases |s.queues[p]|
  {
    if qty == 0 || s.queues[p] == [] then Fill(s, 0, [])
    else
      var head := s.queues[p][0];
      if head.qty <= qty then
        var rest := TradeSide(rule, isBid, DropSide(rule, isBid, s, p, 0), p, qty - head.qty);
        Fill(rest.side, head.qty + rest.filled, [head.slot] + rest.released)
      else Fill(ShrinkSide(s, p, qty), qty, [])
  }

  /** Where a trade stands: what is done so far and what is left lead to the whole result. */
  predicate Trading(rule: Rule, isBid: bool, whole: Fill, s: Side, p: uint32, left: uint32, filled: nat,
                    released: seq<uint32>) {
    && Shaped(isBid, s) && p < |s.queues|
    && var rest := TradeSide(rule, isBid, s, p, left);
       whole == Fill(rest.side, filled + rest.filled, released + rest.released)
  }

  lemma TradingStarts(rule: Rule, isBid: bool, s: Side, p: uint32, qty: uint32)
    requires Shaped(isBid, s) && p < |s.queues|
    ensures Trading(rule, isBid, TradeSide(rule, isBid, s, p, qty), s, p, qty, 0, [])
  {
  }

  lemma TradingTakes(rule: Rule, isBid: bool, whole: Fill, s: Side, p: uint32, left: uint32, filled: nat,
                     released: seq<uint32>)
    requires Trading(rule, isBid, whole, s, p, left, filled, released)
    requires left > 0 && s.queues[p] != [] && s.queues[p][0].qty <= left
    ensures var e := s.queues[p][0];
      Trading(rule, isBid, whole, DropSide(rule, isBid, s, p, 0), p, left - e.qty, filled + e.qty, released + [e.slot])
  {
  }

  lemma TradingShrinks(rule: Rule, isBid: bool, whole: Fill, s: Side, p: uint32, left: uint32, filled: nat,
                       released: seq<uint32>)
    requires Trading(rule, isBid, whole, s, p, left, filled, released)
    requires left > 0 && s.queues[p] != [] && s.queues[p][0].qty > left
    ensures Trading(rule, isBid, whole, ShrinkSide(s, p, left), p, 0, filled + left, released)
  {
  }

  lemma TradingEnds(rule: Rule, isBid: bool, whole: Fill, s: Side, p: uint32, left: uint32, filled: nat,
                    released: seq<uint32>)
    requires Trading(rule, isBid, whole, s, p, left, filled, released) && (left == 0 || s.queues[p] == [])
    ensures whole == Fill(s, filled, released)
  {
  }

  // ---- a book, and a book with the freelist it draws on ----

  datatype Book = Book(bid: Side, ask: Side)

  function SideOf(b: Book, isBid: bool): Side {
    if isBid then b.bid else b.ask
  }

  function WithSide(b: Book, isBid: bool, s: Side): Book {
    if isBid then b.(bid := s) else b.(ask := s)
  }

  /** The difference of the best prices in 32-bit arithmetic, 0 when one is missing. */
  function SpreadOf(b: Book): (ticks: uint32) {
    if b.ask.best == INVALID_PRICE || b.bid.best == 0 then 0 else (b.ask.best - b.bid.best) % TWO32
  }

  predicate BookShaped(b: Book) {
    Shaped(true, b.bid) && Shaped(false, b.ask) && |b.bid.queues| == |b.ask.queues|
  }

  function EmptySide(isBid: bool, levels: nat): Side {
    Side(seq(levels, _ => []), seq(levels, _ => 0), NoBest(isBid))
  }

  function EmptyBook(levels: nat): (b: Book) {
    Book(EmptySide(true, levels), EmptySide(false, levels))
  }

  /** The slots of a book in the order clear frees them. */
  function ClearOrder(b: Book, i: nat): (r: seq<uint32>)
    requires |b.bid.queues| == |b.ask.queues|
    decreases |b.bid.queues| - i
  {
    if i >= |b.bid.queues| then []
    else Slots(b.bid.queues[i]) + Slots(b.ask.queues[i]) + ClearOrder(b, i + 1)
  }

  datatype Loc = Loc(isBid: bool, price: uint32, k: nat)

  predicate At(b: Book, l: Loc, slot: uint32) {
    var queues := SideOf(b, l.isBid).queues;
    l.price < |queues| && l.k < |queues[l.price]| && queues[l.price][l.k].slot == slot
  }

  /** A slot rests somewhere in a book. */
  ghost predicate Rests(b: Book, slot: uint32) {
    exists l :: At(b, l, slot)
  }

  ghost function Find(b: Book, slot: uint32): (r: Option<Loc>)
    ensures r.Some? ==> At(b, r.value, slot)
    ensures r.None? ==> forall l :: !At(b, l, slot)
  {
    if l :| At(b, l, slot) then Some(l) else None
  }

  datatype Op =
    | Enqueue(isBid: bool, price: uint32, id: uint64, qty: uint32)
    | Dequeue(slot: uint32)
    | Trade(isBid: bool, price: uint32, qty: uint32)
    | Clear

  datatype Outcome = Handle(idx: uint32) | Filled(qty: nat) | Done

  datatype Desk = Desk(book: Book, free: seq<uint32>)

  ghost function Step(rule: Rule, d: Desk, op: Op): (r: (Desk, Outcome))
    requires BookShaped(d.book)
    ensures BookShaped(r.0.book) && |r.0.book.bid.queues| == |d.book.bid.queues|
  {
    match op
    case Enqueue(isBid, price, id, qty) =>
      var s := SideOf(d.book, isBid);
      if price >= |s.queues| || d.free == [] then (d, Handle(NULL_IDX))
      else
        var e := Entry(d.free[0], id, qty);
        (Desk(WithSide(d.book, isBid, AddSide(isBid, s, price, e)), d.free[1..]), Handle(d.free[0]))
    case Dequeue(slot) =>
      (match Find(d.book, slot)
       case None => (d, Done)
       case Some(l) =>
         (Desk(WithSide(d.book, l.isBid, DropSide(rule, l.isBid, SideOf(d.book, l.isBid), l.price, l.k)),
               [slot] + d.free), Done))
    case Trade(isBid, price, qty) =>
      var s := SideOf(d.book, isBid);
      if price >= |s.queues| then (d, Filled(0))
      else
        var f := TradeSide(rule, isBid, s, price, qty);
        (Desk(WithSide(d.book, isBid, f.side), Release(d.free, f.released)), Filled(f.filled))
    case Clear =>
      (Desk(EmptyBook(|d.book.bid.queues|), Release(d.free, ClearOrder(d.book, 0))), Done)
  }

  ghost function Run(rule: Rule, d: Desk, ops: seq<Op>): (r: (Desk, seq<Outcome>))
    requires BookShaped(d.book)
    ensures BookShaped(r.0.book) && |r.0.book.bid.queues| == |d.book.bid.queues|
    decreases |ops|
  {
    if ops == [] then (d, [])
    else
      var (d', o) := Step(rule, d, ops[0]);
      var (last, outs) := Run(rule, d', ops[1..]);
      (last, [o] + outs)
  }
}
