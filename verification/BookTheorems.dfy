/** What holds of every run of a book, whichever rule repairs its best prices. */
module BookTheorems {
  import opened Machine
  import opened Distinctness
  import opened BookSpec

  // ---- level totals and volumes ----

  /** Every 32-bit level total is the exact volume of its queue. */
  ghost predicate LevelsAgree(s: Side) {
    |s.level| == |s.queues| && forall p | 0 <= p < |s.queues| :: s.level[p] == Volume(s.queues[p])
  }

  /** An add keeps totals and volumes equal exactly when the total does not pass 32 bits. */
  lemma AddKeepsLevels(isBid: bool, s: Side, p: uint32, e: Entry)
    requires Shaped(isBid, s) && p < |s.queues| && LevelsAgree(s)
    ensures LevelsAgree(AddSide(isBid, s, p, e)) <==> s.level[p] + e.qty < TWO32
  {
    VolumeAppend(s.queues[p], e);
    var r := AddSide(isBid, s, p, e);
    assert r.queues[p] == s.queues[p] + [e];
    assert r.level[p] == (s.level[p] + e.qty) % TWO32;
    if s.level[p] + e.qty < TWO32 {
      assert forall t | 0 <= t < |s.queues| && t != p :: r.queues[t] == s.queues[t];
    }
  }

  /** Removing an order never needs the clamp at zero, and keeps totals and volumes equal. */
  lemma DropKeepsLevels(rule: Rule, isBid: bool, s: Side, p: uint32, k: nat)
    requires Shaped(isBid, s) && p < |s.queues| && k < |s.queues[p]| && LevelsAgree(s)
    ensures s.level[p] >= s.queues[p][k].qty
    ensures LevelsAgree(DropSide(rule, isBid, s, p, k))
  {
    VolumeWithout(s.queues[p], k);
  }

  lemma VolumeOfHead(q: Queue)
    requires q != []
    ensures Volume(q) >= q[0].qty
  {
  }

  lemma ShrinkKeepsLevels(s: Side, p: uint32, qty: uint32)
    requires p < |s.queues| && s.queues[p] != [] && qty <= s.queues[p][0].qty && LevelsAgree(s)
    ensures LevelsAgree(ShrinkSide(s, p, qty))
    ensures ShrinkSide(s, p, qty).level == s.level[p := s.level[p] - qty]
  {
  }

  lemma {:induction false} TradeKeepsLevels(rule: Rule, isBid: bool, s: Side, p: uint32, qty: uint32)
    requires Shaped(isBid, s) && p < |s.queues| && LevelsAgree(s)
    ensures LevelsAgree(TradeSide(rule, isBid, s, p, qty).side)
    decreases |s.queues[p]|
  {
    if qty > 0 && s.queues[p] != [] {
      if s.queues[p][0].qty <= qty {
        DropKeepsLevels(rule, isBid, s, p, 0);
        TradeKeepsLevels(rule, isBid, DropSide(rule, isBid, s, p, 0), p, qty - s.queues[p][0].qty);
      } else {
        ShrinkKeepsLevels(s, p, qty);
      }
    }
  }

  // ---- matching in arrival order ----

  /** Trading against q for qty takes the first n orders and, if quantity is left, part of the next. */
  ghost predicate FifoMatch(q: Queue, qty: nat, n: nat, rest: Queue, filled: nat) {
    && n <= |q| && Volume(q[..n]) <= qty
    && (forall j | 0 <= j < n :: Volume(q[..j]) < qty)
    && if n == |q| then rest == [] && filled == Volume(q)
       else var left := qty - Volume(q[..n]);
            && (left == 0 || left < q[n].qty)
            && filled == qty
            && rest == [if left == 0 then q[n] else q[n].(qty := q[n].qty - left)] + q[n + 1..]
  }

  lemma FifoCons(q: Queue, qty: nat, m: nat, rest: Queue, filled: nat)
    requires q != [] && q[0].qty <= qty && qty > 0
    requires FifoMatch(q[1..], qty - q[0].qty, m, rest, filled)
    ensures FifoMatch(q, qty, m + 1, rest, q[0].qty + filled)
  {
    forall j | 1 <= j <= m + 1 ensures Volume(q[..j]) == q[0].qty + Volume(q[1..][..j - 1]) {
      assert q[..j][1..] == q[1..][..j - 1];
      HeadOff(q[..j]);
    }
    assert q[..0] == [];
    assert q[..|q|] == q && q[1..][..|q| - 1] == q[1..];
  }

  /** A match in arrival order fills the lesser of the quantity and the volume. */
  lemma FifoFills(q: Queue, qty: nat, n: nat, rest: Queue, filled: nat)
    requires FifoMatch(q, qty, n, rest, filled)
    ensures filled == Min(qty, Volume(q)) && Volume(rest) == Volume(q) - filled
  {
    VolumeConcat(q[..n], q[n..]);
    assert q == q[..n] + q[n..];
    if n < |q| {
      HeadOff(q[n..]);
      HeadOff(rest);
      assert q[n..][1..] == q[n + 1..] == rest[1..];
    }
  }

  predicate LevelsElsewhere(s: Side, r: Side, p: nat) {
    |r.level| == |s.level| && forall t | 0 <= t < |s.level| && t != p :: r.level[t] == s.level[t]
  }

  /** What a trade at p does to the side: a match in arrival order there, and nothing anywhere else. */
  ghost predicate FifoTrade(s: Side, p: uint32, qty: nat, n: nat, f: Fill)
    requires p < |s.queues|
  {
    && |f.side.queues| == |s.queues| && LevelsElsewhere(s, f.side, p)
    && FifoMatch(s.queues[p], qty, n, f.side.queues[p], f.filled)
    && f.released == Slots(s.queues[p][..n])
    && f.side.queues == s.queues[p := f.side.queues[p]]
  }

  lemma FifoTradeStop(rule: Rule, isBid: bool, s: Side, p: uint32, qty: uint32)
    requires Shaped(isBid, s) && p < |s.queues|
    requires qty == 0 || s.queues[p] == [] || s.queues[p][0].qty > qty
    ensures FifoTrade(s, p, qty, 0, TradeSide(rule, isBid, s, p, qty))
  {
  }

  lemma FifoTradeCons(s: Side, p: uint32, qty: nat, next: Side, m: nat, f: Fill)
    requires p < |s.queues| == |next.queues| && s.queues[p] != [] && 0 < qty && s.queues[p][0].qty <= qty
    requires next.queues == s.queues[p := s.queues[p][1..]] && LevelsElsewhere(s, next, p)
    requires FifoTrade(next, p, qty - s.queues[p][0].qty, m, f)
    ensures FifoTrade(s, p, qty, m + 1,
      Fill(f.side, s.queues[p][0].qty + f.filled, [s.queues[p][0].slot] + f.released))
  {
    var q := s.queues[p];
    FifoCons(q, qty, m, f.side.queues[p], f.filled);
    assert Slots(q[..m + 1]) == [q[0].slot] + Slots(q[1..][..m]);
  }

  lemma DropElsewhere(rule: Rule, isBid: bool, s: Side, p: uint32, k: nat)
    requires Shaped(isBid, s) && p < |s.queues| && k < |s.queues[p]|
    ensures LevelsElsewhere(s, DropSide(rule, isBid, s, p, k), p)
  {
  }

  /**
   * A trade releases exactly the fully matched orders from the front of the queue, shortens at most
   * the next order, keeps the rest in order and leaves every other level alone.
   */
  lemma {:induction false} TradeIsFifo(rule: Rule, isBid: bool, s: Side, p: uint32, qty: uint32) returns (n: nat)
    requires Shaped(isBid, s) && p < |s.queues|
    ensures FifoTrade(s, p, qty, n, TradeSide(rule, isBid, s, p, qty))
    decreases |s.queues[p]|
  {
    hide DropSide, FifoTrade;
    var q := s.queues[p];
    if qty == 0 || q == [] || q[0].qty > qty {
      n := 0;
      FifoTradeStop(rule, isBid, s, p, qty);
    } else {
      var next := DropSide(rule, isBid, s, p, 0);
      HeadOff(q);
      DropElsewhere(rule, isBid, s, p, 0);
      var m := TradeIsFifo(rule, isBid, next, p, qty - q[0].qty);
      n := m + 1;
      FifoTradeCons(s, p, qty, next, m, TradeSide(rule, isBid, next, p, qty - q[0].qty));
    }
  }

  /** A trade fills the lesser of the quantity asked and the volume at the price, which falls by that. */
  lemma TradeFills(rule: Rule, isBid: bool, s: Side, p: uint32, qty: uint32)
    requires Shaped(isBid, s) && p < |s.queues|
    ensures var f := TradeSide(rule, isBid, s, p, qty);
      && f.filled == Min(qty, Volume(s.queues[p]))
      && Volume(f.side.queues[p]) == Volume(s.queues[p]) - f.filled
  {
    hide FifoMatch, TradeSide;
    var n := TradeIsFifo(rule, isBid, s, p, qty);
    var f := TradeSide(rule, isBid, s, p, qty);
    FifoFills(s.queues[p], qty, n, f.side.queues[p], f.filled);
  }

  // ---- best prices ----

  ghost predicate NoVolumeBeyond(isBid: bool, s: Side) {
    forall p | 0 <= p < |s.queues| && Beyond(isBid, p, s.best) :: Volume(s.queues[p]) == 0
  }

  /** Totals a scan can rely on: all of them but that of bid price 0, where a scan ends whatever it finds. */
  ghost predicate LevelsServe(isBid: bool, s: Side) {
    && |s.level| == |s.queues|
    && forall p | 0 <= p < |s.queues| && !(isBid && p == 0) :: s.level[p] == Volume(s.queues[p])
  }

  /** While a scan can rely on the totals and nothing lies beyond the best price, both repairs find the same. */
  lemma RepairsAgree(isBid: bool, s: Side)
    requires Shaped(isBid, s) && s.best < |s.queues| && LevelsServe(isBid, s) && NoVolumeBeyond(isBid, s)
    ensures Repair(Scan, isBid, s) == Repair(Lifting, isBid, s)
  {
    var found := ScanBest(isBid, s.level, s.best);
    if found < |s.queues| && Volume(s.queues[found]) > 0 {
      assert IsBest(isBid, s.queues, found);
    } else {
      forall t | 0 <= t < |s.queues| ensures Volume(s.queues[t]) == 0 {
        if !Beyond(isBid, t, s.best) && !(isBid && t == 0) { assert s.level[t] == 0; }
      }
    }
  }

  lemma AddKeepsBeyond(isBid: bool, s: Side, p: uint32, e: Entry)
    requires Shaped(isBid, s) && p < |s.queues| && NoVolumeBeyond(isBid, s)
    ensures NoVolumeBeyond(isBid, AddSide(isBid, s, p, e))
  {
  }

  /** The repair by lifting needs no assumption on the 32-bit totals; the repair by scanning relies on them. */
  lemma DropKeepsBeyond(rule: Rule, isBid: bool, s: Side, p: uint32, k: nat)
    requires Shaped(isBid, s) && p < |s.queues| && k < |s.queues[p]| && NoVolumeBeyond(isBid, s)
    requires rule == Scan ==> LevelsServe(isBid, s)
    ensures NoVolumeBeyond(isBid, DropSide(rule, isBid, s, p, k))
    ensures LevelsServe(isBid, s) ==>
      LevelsServe(isBid, DropSide(rule, isBid, s, p, k)) && DropSide(Scan, isBid, s, p, k) == DropSide(Lifting, isBid,
        s, p, k)
  {
    VolumeWithout(s.queues[p], k);
    var q := Without(s.queues[p], k);
    var qty := s.queues[p][k].qty;
    var left := if s.level[p] >= qty then s.level[p] - qty else 0;
    var d := Side(s.queues[p := q], s.level[p := left], s.best);
    assert NoVolumeBeyond(isBid, d);
    if LevelsServe(isBid, s) {
      assert LevelsServe(isBid, d);
      if d.best < |d.queues| { RepairsAgree(isBid, d); }
    }
  }

  lemma ShrinkKeepsBeyond(isBid: bool, s: Side, p: uint32, qty: uint32)
    requires p < |s.queues| == |s.level| && s.queues[p] != [] && qty <= s.queues[p][0].qty && NoVolumeBeyond(isBid, s)
    ensures NoVolumeBeyond(isBid, ShrinkSide(s, p, qty))
  {
    HeadOff(s.queues[p]);
    HeadOff(ShrinkSide(s, p, qty).queues[p]);
  }

  lemma ShrinkKeepsServe(isBid: bool, s: Side, p: uint32, qty: uint32)
    requires p < |s.queues| && s.queues[p] != [] && qty <= s.queues[p][0].qty && LevelsServe(isBid, s)
    ensures LevelsServe(isBid, ShrinkSide(s, p, qty))
  {
    ShrinkVolumes(s.queues, p, qty);
    VolumeOfHead(s.queues[p]);
    var r := ShrinkSide(s, p, qty);
    forall t | 0 <= t < |s.queues| && !(isBid && t == 0) ensures r.level[t] == Volume(r.queues[t]) {
      assert Volume(r.queues[t]) == Volumes(r.queues)[t] && Volume(s.queues[t]) == Volumes(s.queues)[t];
    }
  }

  lemma {:induction false} TradeKeepsBeyond(rule: Rule, isBid: bool, s: Side, p: uint32, qty: uint32)
    requires Shaped(isBid, s) && p < |s.queues| && NoVolumeBeyond(isBid, s)
    requires rule == Scan ==> LevelsServe(isBid, s)
    ensures NoVolumeBeyond(isBid, TradeSide(rule, isBid, s, p, qty).side)
    ensures LevelsServe(isBid, s) ==>
      && LevelsServe(isBid, TradeSide(rule, isBid, s, p, qty).side)
      && TradeSide(Scan, isBid, s, p, qty) == TradeSide(Lifting, isBid, s, p, qty)
    decreases |s.queues[p]|
  {
    hide DropSide, ShrinkSide, NoVolumeBeyond, LevelsServe;
    if qty > 0 && s.queues[p] != [] {
      var head := s.queues[p][0];
      if head.qty <= qty {
        DropKeepsBeyond(rule, isBid, s, p, 0);
        TradeKeepsBeyond(rule, isBid, DropSide(rule, isBid, s, p, 0), p, qty - head.qty);
      } else {
        ShrinkKeepsBeyond(isBid, s, p, qty);
        if LevelsServe(isBid, s) { ShrinkKeepsServe(isBid, s, p, qty); }
      }
    }
  }

  // ---- the two books side by side ----

  ghost predicate SideAgrees(isBid: bool, s: Side) {
    LevelsServe(isBid, s) && NoVolumeBeyond(isBid, s)
  }

  ghost predicate BookAgrees(b: Book) {
    BookShaped(b) && SideAgrees(true, b.bid) && SideAgrees(false, b.ask)
  }

  /** What a caller can check before an operation: an accepted add keeps its level total below 2^32. */
  predicate NoOverflow(d: Desk, op: Op)
    requires BookShaped(d.book)
  {
    op.Enqueue? && op.price < |d.book.bid.queues| && d.free != [] ==>
      SideOf(d.book, op.isBid).level[op.price] + op.qty < TWO32
  }

  /** An overflow at bid price 0 does no harm: a scan for bids ends there whatever the total says. */
  predicate Harmless(d: Desk, op: Op)
    requires BookShaped(d.book)
  {
    NoOverflow(d, op) || (op.isBid && op.price == 0)
  }

  lemma AddKeepsAgreement(isBid: bool, s: Side, p: uint32, e: Entry)
    requires Shaped(isBid, s) && p < |s.queues| && SideAgrees(isBid, s)
    requires s.level[p] + e.qty < TWO32 || (isBid && p == 0)
    ensures SideAgrees(isBid, AddSide(isBid, s, p, e))
  {
    VolumeAppend(s.queues[p], e);
    AddKeepsBeyond(isBid, s, p, e);
    assert forall t | 0 <= t < |s.queues| && t != p :: AddSide(isBid, s, p, e).queues[t] == s.queues[t];
  }

  lemma StepsAgree(d: Desk, op: Op)
    requires BookAgrees(d.book)
    ensures Step(Scan, d, op) == Step(Lifting, d, op)
    ensures Harmless(d, op) ==> BookAgrees(Step(Scan, d, op).0.book)
  {
    hide LevelsServe, NoVolumeBeyond, AddSide, DropSide, TradeSide;
    EmptyAgrees(|d.book.bid.queues|);
    match op
    case Enqueue(isBid, price, id, qty) =>
      if price < |d.book.bid.queues| && d.free != [] && Harmless(d, op) {
        AddKeepsAgreement(isBid, SideOf(d.book, isBid), price, Entry(d.free[0], id, qty));
      }
    case Dequeue(slot) =>
      var f := Find(d.book, slot);
      if f.Some? {
        DropKeepsBeyond(Scan, f.value.isBid, SideOf(d.book, f.value.isBid), f.value.price, f.value.k);
      }
    case Trade(isBid, price, qty) =>
      if price < |d.book.bid.queues| {
        TradeKeepsBeyond(Scan, isBid, SideOf(d.book, isBid), price, qty);
      }
    case Clear =>
  }

  lemma EmptyAgrees(levels: nat)
    ensures SideAgrees(true, EmptyBook(levels).bid) && SideAgrees(false, EmptyBook(levels).ask)
  {
  }

  ghost predicate HarmlessRun(d: Desk, ops: seq<Op>)
    requires BookShaped(d.book)
    decreases |ops|
  {
    ops == [] || (Harmless(d, ops[0]) && HarmlessRun(Step(Scan, d, ops[0]).0, ops[1..]))
  }

  /**
   * The fast book refines the simple one: over every run in which no level total but that of bid price 0
   * passes 32 bits, the scanning book and the tree book go through the same queues, totals, best prices
   * and freelists and return the same handles and fills, zero-quantity orders included.
   */
  lemma {:induction false} FastRefinesSimple(d: Desk, ops: seq<Op>)
    requires BookAgrees(d.book) && HarmlessRun(d, ops)
    ensures Run(Scan, d, ops) == Run(Lifting, d, ops)
    ensures BookAgrees(Run(Scan, d, ops).0.book)
    decreases |ops|
  {
    if ops != [] {
      StepsAgree(d, ops[0]);
      FastRefinesSimple(Step(Scan, d, ops[0]).0, ops[1..]);
    }
  }

  // ---- when the totals are exact ----

  ghost predicate NeverOverflows(rule: Rule, d: Desk, ops: seq<Op>)
    requires BookShaped(d.book)
    decreases |ops|
  {
    ops == [] || (NoOverflow(d, ops[0]) && NeverOverflows(rule, Step(rule, d, ops[0]).0, ops[1..]))
  }

  lemma StepKeepsLevelsIff(rule: Rule, d: Desk, op: Op)
    requires BookShaped(d.book) && LevelsAgree(d.book.bid) && LevelsAgree(d.book.ask)
    ensures var b := Step(rule, d, op).0.book; (LevelsAgree(b.bid) && LevelsAgree(b.ask)) <==> NoOverflow(d, op)
  {
    hide LevelsAgree;
    EmptyLevelsAgree(|d.book.bid.queues|);
    match op
    case Enqueue(isBid, price, id, qty) =>
      if price < |d.book.bid.queues| && d.free != [] {
        AddKeepsLevels(isBid, SideOf(d.book, isBid), price, Entry(d.free[0], id, qty));
      }
    case Dequeue(slot) =>
      var f := Find(d.book, slot);
      if f.Some? {
        DropKeepsLevels(rule, f.value.isBid, SideOf(d.book, f.value.isBid), f.value.price, f.value.k);
      }
    case Trade(isBid, price, qty) =>
      if price < |d.book.bid.queues| {
        TradeKeepsLevels(rule, isBid, SideOf(d.book, isBid), price, qty);
      }
    case Clear =>
  }

  lemma EmptyLevelsAgree(levels: nat)
    ensures LevelsAgree(EmptyBook(levels).bid) && LevelsAgree(EmptyBook(levels).ask)
  {
  }

  /** Before and after each operation of a run, every level total is the exact volume of its queue. */
  ghost predicate LevelsAgreeThroughout(rule: Rule, d: Desk, ops: seq<Op>)
    requires BookShaped(d.book)
    decreases |ops|
  {
    && LevelsAgree(d.book.bid) && LevelsAgree(d.book.ask)
    && (ops == [] || LevelsAgreeThroughout(rule, Step(rule, d, ops[0]).0, ops[1..]))
  }

  /** Over any run the totals stay exact precisely when no add takes its level total past 32 bits. */
  lemma {:induction false} TotalsExactIffNoOverflow(rule: Rule, d: Desk, ops: seq<Op>)
    requires BookShaped(d.book) && LevelsAgree(d.book.bid) && LevelsAgree(d.book.ask)
    ensures LevelsAgreeThroughout(rule, d, ops) <==> NeverOverflows(rule, d, ops)
    decreases |ops|
  {
    hide LevelsAgree, NoOverflow;
    if ops != [] {
      StepKeepsLevelsIff(rule, d, ops[0]);
      var next := Step(rule, d, ops[0]).0;
      if NoOverflow(d, ops[0]) { TotalsExactIffNoOverflow(rule, next, ops[1..]); }
    }
  }

  /** Where two adds of 2^32 - 1 and 1 at one price lead: the level total has wrapped to zero. */
  function OverflownDesk(): Desk {
    var empty := EmptyBook(10);
    var one := AddSide(true, empty.bid, 5, Entry(0, 7, 0xFFFF_FFFF));
    Desk(empty.(bid := AddSide(true, one, 5, Entry(1, 8, 1))), [])
  }

  lemma OverflowReached(rule: Rule)
    ensures var d := Desk(EmptyBook(10), [0, 1]);
      var adds := [Enqueue(true, 5, 7, 0xFFFF_FFFF), Enqueue(true, 5, 8, 1)];
      !HarmlessRun(d, adds) && !NeverOverflows(rule, d, adds) && Run(rule, d, adds).0 == OverflownDesk()
  {
    var d := Desk(EmptyBook(10), [0, 1]);
    var adds := [Enqueue(true, 5, 7, 0xFFFF_FFFF), Enqueue(true, 5, 8, 1)];
    var one := AddSide(true, d.book.bid, 5, Entry(0, 7, 0xFFFF_FFFF));
    assert [0, 1][1..] == [1] && [1][1..] == [];
    var d1 := Step(rule, d, adds[0]).0;
    assert d1 == Desk(d.book.(bid := one), [1]);
    assert one.level[5] == 0xFFFF_FFFF;
    assert Step(rule, d1, adds[1]).0 == OverflownDesk();
    assert adds[1..] == [adds[1]] && adds[1..][1..] == [];
    assert Run(rule, OverflownDesk(), []).0 == OverflownDesk();
    assert Run(rule, d1, [adds[1]]).0 == OverflownDesk();
  }

  /** After such adds the two books part: cancelling the second order loses the scanning book's best bid. */
  lemma OverflowSeparatesTheBooks()
    ensures Step(Scan, OverflownDesk(), Dequeue(1)).0.book.bid.best == 0
    ensures Step(Lifting, OverflownDesk(), Dequeue(1)).0.book.bid.best == 5
  {
    var b := OverflownDesk().book;
    var first, second := Entry(0, 7, 0xFFFF_FFFF), Entry(1, 8, 1);
    assert b.bid.queues[5] == [first, second] && b.bid.level[5] == 0 && b.bid.best == 5;
    assert At(b, Loc(true, 5, 1), 1);
    assert Find(b, 1) == Some(Loc(true, 5, 1));
    assert Without([first, second], 1) == [first];
    var rest := b.bid.queues[5 := [first]];
    assert Volume([first]) > 0;
    assert IsBest(true, rest, 5);
    assert forall p | 0 <= p < 10 :: b.bid.level[p] == 0;
  }

  // ---- when the best price has volume ----

  /** The best price is the extreme price with volume, or the empty value when there is none. */
  ghost predicate BestHasVolume(isBid: bool, s: Side) {
    IsBest(isBid, s.queues, s.best) ||
    (s.best == NoBest(isBid) && forall p | 0 <= p < |s.queues| :: Volume(s.queues[p]) == 0)
  }

  /** The totals are the volumes, and the best price is the extreme one with volume. */
  ghost predicate Exact(isBid: bool, s: Side) {
    Shaped(isBid, s) && LevelsAgree(s) && BestHasVolume(isBid, s)
  }

  ghost predicate BookExact(b: Book) {
    BookShaped(b) && Exact(true, b.bid) && Exact(false, b.ask)
  }

  /** What a caller can check before an add: the total fits, and no order of quantity 0 beats the best price. */
  predicate SoundAdd(isBid: bool, s: Side, p: uint32, qty: uint32)
    requires p < |s.level|
  {
    s.level[p] + qty < TWO32 && (qty == 0 ==> !Beyond(isBid, p, s.best))
  }

  lemma AddKeepsExactIff(isBid: bool, s: Side, p: uint32, e: Entry)
    requires Exact(isBid, s) && p < |s.queues|
    ensures Exact(isBid, AddSide(isBid, s, p, e)) <==> SoundAdd(isBid, s, p, e.qty)
  {
    AddKeepsLevels(isBid, s, p, e);
    VolumeAppend(s.queues[p], e);
    var r := AddSide(isBid, s, p, e);
    assert forall t | 0 <= t < |s.queues| && t != p :: r.queues[t] == s.queues[t];
    assert r.queues[p] == s.queues[p] + [e];
    if Volume(r.queues[p]) == 0 && !Beyond(isBid, p, s.best) {
      assert IsBest(isBid, s.queues, s.best) ==> IsBest(isBid, r.queues, s.best);
    }
  }

  lemma DropKeepsExact(rule: Rule, isBid: bool, s: Side, p: uint32, k: nat)
    requires Exact(isBid, s) && p < |s.queues| && k < |s.queues[p]|
    ensures Exact(isBid, DropSide(rule, isBid, s, p, k))
  {
    DropKeepsBeyond(rule, isBid, s, p, k);
    DropKeepsLevels(rule, isBid, s, p, k);
    VolumeWithout(s.queues[p], k);
    var q := Without(s.queues[p], k);
    var d := Side(s.queues[p := q], s.level[p := s.level[p] - s.queues[p][k].qty], s.best);
    assert LevelsAgree(d) && NoVolumeBeyond(isBid, d);
    if p == s.best && d.level[p] == 0 {
      RepairsAgree(isBid, d);
      assert DropSide(rule, isBid, s, p, k).best == VolumeBest(isBid, d.queues);
    } else if IsBest(isBid, s.queues, s.best) {
      assert IsBest(isBid, d.queues, d.best);
    }
  }

  lemma ShrinkKeepsExact(isBid: bool, s: Side, p: uint32, qty: uint32)
    requires Exact(isBid, s) && p < |s.queues| && s.queues[p] != [] && qty < s.queues[p][0].qty
    ensures Exact(isBid, ShrinkSide(s, p, qty))
  {
  }

  lemma {:induction false} TradeKeepsExact(rule: Rule, isBid: bool, s: Side, p: uint32, qty: uint32)
    requires Exact(isBid, s) && p < |s.queues|
    ensures Exact(isBid, TradeSide(rule, isBid, s, p, qty).side)
    decreases |s.queues[p]|
  {
    hide LevelsAgree, BestHasVolume, DropSide, ShrinkSide;
    if qty > 0 && s.queues[p] != [] {
      var head := s.queues[p][0];
      if head.qty <= qty {
        DropKeepsExact(rule, isBid, s, p, 0);
        TradeKeepsExact(rule, isBid, DropSide(rule, isBid, s, p, 0), p, qty - head.qty);
      } else {
        ShrinkKeepsExact(isBid, s, p, qty);
      }
    }
  }

  predicate Sound(d: Desk, op: Op)
    requires BookShaped(d.book)
  {
    op.Enqueue? && op.price < |d.book.bid.queues| && d.free != [] ==>
      SoundAdd(op.isBid, SideOf(d.book, op.isBid), op.price, op.qty)
  }

  lemma EmptyIsExact(levels: nat)
    requires 1 <= levels < 0x8000_0000
    ensures BookExact(EmptyBook(levels))
  {
  }

  lemma StepKeepsExactIff(rule: Rule, d: Desk, op: Op)
    requires BookExact(d.book)
    ensures BookExact(Step(rule, d, op).0.book) <==> Sound(d, op)
  {
    hide Exact, SoundAdd, AddSide, DropSide, TradeSide;
    match op
    case Enqueue(isBid, price, id, qty) =>
      if price < |d.book.bid.queues| && d.free != [] {
        AddKeepsExactIff(isBid, SideOf(d.book, isBid), price, Entry(d.free[0], id, qty));
      }
    case Dequeue(slot) =>
      var f := Find(d.book, slot);
      if f.Some? {
        DropKeepsExact(rule, f.value.isBid, SideOf(d.book, f.value.isBid), f.value.price, f.value.k);
      }
    case Trade(isBid, price, qty) =>
      if price < |d.book.bid.queues| {
        TradeKeepsExact(rule, isBid, SideOf(d.book, isBid), price, qty);
      }
    case Clear =>
      EmptyIsExact(|d.book.bid.queues|);
  }

  ghost predicate SoundRun(rule: Rule, d: Desk, ops: seq<Op>)
    requires BookShaped(d.book)
    decreases |ops|
  {
    ops == [] || (Sound(d, ops[0]) && SoundRun(rule, Step(rule, d, ops[0]).0, ops[1..]))
  }

  /** Before and after each operation of a run, totals and best prices are exact. */
  ghost predicate ExactThroughout(rule: Rule, d: Desk, ops: seq<Op>)
    requires BookShaped(d.book)
    decreases |ops|
  {
    BookExact(d.book) && (ops == [] || ExactThroughout(rule, Step(rule, d, ops[0]).0, ops[1..]))
  }

  /**
   * Over any run of either book, totals and best prices are exact throughout precisely when no accepted add
   * overflows its total and none of quantity 0 beats the best price of its side.
   */
  lemma {:induction false} BestPricesExactIff(rule: Rule, d: Desk, ops: seq<Op>)
    requires BookExact(d.book)
    ensures ExactThroughout(rule, d, ops) <==> SoundRun(rule, d, ops)
    decreases |ops|
  {
    hide Exact, Sound;
    if ops != [] {
      StepKeepsExactIff(rule, d, ops[0]);
      if Sound(d, ops[0]) { BestPricesExactIff(rule, Step(rule, d, ops[0]).0, ops[1..]); }
    }
  }

  /** An order of quantity 0 in an empty book is its best price, and has no volume. */
  lemma BestPriceCanBeHollow(rule: Rule)
    ensures var s := Step(rule, Desk(EmptyBook(10), [0]), Enqueue(false, 5, 7, 0)).0.book.ask;
      s.best == 5 && Volume(s.queues[5]) == 0 && !BestHasVolume(false, s)
  {
    assert [0][1..] == [];
    var s := Step(rule, Desk(EmptyBook(10), [0]), Enqueue(false, 5, 7, 0)).0.book.ask;
    assert s.queues[5] == [Entry(0, 7, 0)];
  }

  /** Even when totals wrap, the tree book never has volume beyond its best prices. */
  lemma {:induction false} LiftingNeverMissesVolume(d: Desk, ops: seq<Op>)
    requires BookShaped(d.book) && NoVolumeBeyond(true, d.book.bid) && NoVolumeBeyond(false, d.book.ask)
    ensures var b := Run(Lifting, d, ops).0.book; NoVolumeBeyond(true, b.bid) && NoVolumeBeyond(false, b.ask)
    decreases |ops|
  {
    if ops != [] {
      var d' := Step(Lifting, d, ops[0]).0;
      match ops[0] {
        case Enqueue(isBid, price, id, qty) =>
          if price < |d.book.bid.queues| && d.free != [] {
            AddKeepsBeyond(isBid, SideOf(d.book, isBid), price, Entry(d.free[0], id, qty));
          }
        case Dequeue(slot) =>
          var f := Find(d.book, slot);
          if f.Some? {
            DropKeepsBeyond(Lifting, f.value.isBid, SideOf(d.book, f.value.isBid), f.value.price, f.value.k);
          }
        case Trade(isBid, price, qty) =>
          if price < |d.book.bid.queues| {
            TradeKeepsBeyond(Lifting, isBid, SideOf(d.book, isBid), price, qty);
          }
        case Clear =>
      }
      LiftingNeverMissesVolume(d', ops[1..]);
    }
  }
}
