/**
 * What each operation of a book answers and what it changes, told from the queues and the freelist alone: the
 * handle of an add, the fill of a trade, and which orders are where afterwards.
 */
module Operations {
  import opened Machine
  import opened Distinctness
  import opened Pool
  import opened BookSpec
  import opened BookTheorems
  import opened Conservation
  import opened Separation

  /** Two books differ at most in the queue at one price of one side. */
  ghost predicate OthersSame(b: Book, b': Book, isBid: bool, p: nat) {
    && |b'.bid.queues| == |b.bid.queues| && |b'.ask.queues| == |b.ask.queues|
    && (forall t | 0 <= t < |b.bid.queues| && !(isBid && t == p) :: b'.bid.queues[t] == b.bid.queues[t])
    && (forall t | 0 <= t < |b.ask.queues| && !(!isBid && t == p) :: b'.ask.queues[t] == b.ask.queues[t])
  }

  // ---- adds ----

  /** The null handle is no slot of the freelist or the book. */
  ghost predicate NoNullSlot(d: Desk) {
    TallyDesk(d, Some(NULL_IDX)) == 0
  }

  lemma NullNotFree(d: Desk)
    requires NoNullSlot(d)
    ensures d.free != [] ==> d.free[0] != NULL_IDX
  {
  }

  lemma StepKeepsNoNull(rule: Rule, d: Desk, op: Op)
    requires BookShaped(d.book) && NoNullSlot(d)
    ensures NoNullSlot(Step(rule, d, op).0)
  {
    StepConserves(rule, d, op, Some(NULL_IDX));
  }

  /**
   * An add answers the null handle exactly when its price is out of range or no slot is free, and then changes
   * nothing. Otherwise it answers the slot it took, with the order of that id and quantity last in its queue.
   */
  lemma AddAnswers(rule: Rule, d: Desk, isBid: bool, price: uint32, id: uint64, qty: uint32)
    requires BookShaped(d.book) && NoNullSlot(d)
    ensures var (d', o) := Step(rule, d, Enqueue(isBid, price, id, qty));
      && o.Handle?
      && (o.idx == NULL_IDX <==> price >= |d.book.bid.queues| || d.free == [])
      && (o.idx == NULL_IDX ==> d' == d)
      && (o.idx != NULL_IDX ==>
            && d.free == [o.idx] + d'.free && OthersSame(d.book, d'.book, isBid, price)
            && var q, q' := SideOf(d.book, isBid).queues[price], SideOf(d'.book, isBid).queues[price];
               q' == q + [Entry(o.idx, id, qty)] && At(d'.book, Loc(isBid, price, |q|), o.idx))
  {
    NullNotFree(d);
  }

  /** The best price after an add is the better of the old one and its own; one total grows, modulo 2^32. */
  lemma AddBest(isBid: bool, s: Side, p: uint32, e: Entry)
    requires Shaped(isBid, s) && p < |s.queues|
    ensures var r := AddSide(isBid, s, p, e);
      && r.best == (if (isBid && p > s.best) || (!isBid && p < s.best) then p else s.best)
      && |r.level| == |s.level| && r.level[p] == (s.level[p] + e.qty) % 0x1_0000_0000
      && forall t | 0 <= t < |s.level| && t != p :: r.level[t] == s.level[t]
  {
  }

  // ---- cancels ----

  /** Cancelling the order at a place. */
  lemma CancelAt(rule: Rule, d: Desk, l: Loc, slot: uint32)
    requires BookShaped(d.book) && OnceEach(d) && At(d.book, l, slot)
    ensures Step(rule, d, Dequeue(slot)) ==
      (Desk(WithSide(d.book, l.isBid, DropSide(rule, l.isBid, SideOf(d.book, l.isBid), l.price, l.k)),
            [slot] + d.free), Done)
  {
    hide DropSide, OnceEach;
    PlaceIsUnique(d, l, Find(d.book, slot).value, slot);
  }

  /** A free slot rests nowhere. */
  lemma FreeRestsNowhere(d: Desk, slot: uint32)
    requires OnceEach(d) && slot in d.free
    ensures !Rests(d.book, slot)
  {
    TallyIn(d.free, slot);
    assert TallyDesk(d, Some(slot)) <= 1;
    if l :| At(d.book, l, slot) {
      var queues := SideOf(d.book, l.isBid).queues;
      TallyHolds(queues[l.price], l.k);
      TallyOfOne(queues, l.price, Some(slot));
    }
  }

  lemma {:induction false} TallyIn(free: seq<uint32>, slot: uint32)
    requires slot in free
    ensures Tally(free, Some(slot)) >= 1
    decreases |free|
  {
    if free[0] != slot { TallyIn(free[1..], slot); }
  }

  /**
   * A cancel of a resting order, wherever it is in its queue, takes out exactly that entry: the rest of the queue
   * keeps its order, no other queue changes, the slot rests nowhere and heads the freelist.
   */
  lemma CancelAnswers(rule: Rule, d: Desk, l: Loc, slot: uint32)
    requires BookShaped(d.book) && OnceEach(d) && At(d.book, l, slot)
    ensures var (d', o) := Step(rule, d, Dequeue(slot));
      && o == Done && d'.free == [slot] + d.free && !Rests(d'.book, slot)
      && OthersSame(d.book, d'.book, l.isBid, l.price)
      && var q := SideOf(d.book, l.isBid).queues[l.price];
         SideOf(d'.book, l.isBid).queues[l.price] == q[..l.k] + q[l.k + 1..]
  {
    CancelAt(rule, d, l, slot);
    StepKeepsOnce(rule, d, Dequeue(slot));
    hide DropSide, OnceEach;
    FreeRestsNowhere(Step(rule, d, Dequeue(slot)).0, slot);
  }

  /** A cancel of a slot that rests nowhere in the book does nothing. */
  lemma CancelOfNothing(rule: Rule, d: Desk, slot: uint32)
    requires BookShaped(d.book) && !Rests(d.book, slot)
    ensures Step(rule, d, Dequeue(slot)) == (d, Done)
  {
  }

  /**
   * The best price after a cancel stays unless its own total comes to zero; then the tree book's is the extreme price
   * with volume, and the scanning book's the next one with a nonzero total, or the empty value. The total of the level
   * is clamped at zero.
   */
  lemma CancelBest(rule: Rule, isBid: bool, s: Side, p: uint32, k: nat)
    requires Shaped(isBid, s) && p < |s.queues| && k < |s.queues[p]|
    ensures var r, qty := DropSide(rule, isBid, s, p, k), s.queues[p][k].qty;
      && |r.level| == |s.level| && r.level[p] == (if s.level[p] > qty then s.level[p] - qty else 0)
      && (forall t | 0 <= t < |s.level| && t != p :: r.level[t] == s.level[t])
      && if p != s.best || s.level[p] > qty then r.best == s.best
         else if rule.Lifting? then BestHasVolume(isBid, r)
         else ScannedFrom(isBid, r, p)
  {
  }

  /** The best price is the first from p on with a nonzero total, or the empty value if none has. */
  ghost predicate ScannedFrom(isBid: bool, s: Side, p: nat)
    requires |s.level| == |s.queues|
  {
    if s.best < |s.level| && s.level[s.best] != 0
    then !Beyond(isBid, s.best, p) &&
         forall t | 0 <= t < |s.level| && Beyond(isBid, t, s.best) && !Beyond(isBid, t, p) :: s.level[t] == 0
    else s.best == (if isBid then 0 else 0xFFFF_FFFF) &&
         forall t | 0 <= t < |s.level| && !Beyond(isBid, t, p) :: s.level[t] == 0
  }

  lemma DropUndoesAdd(rule: Rule, isBid: bool, s: Side, p: uint32, e: Entry)
    requires Shaped(isBid, s) && p < |s.queues|
    ensures var after := DropSide(rule, isBid, AddSide(isBid, s, p, e), p, |s.queues[p]|);
      after.queues == s.queues && (s.level[p] + e.qty < TWO32 ==> after.level == s.level)
  {
    hide Repair;
    var r := AddSide(isBid, s, p, e);
    assert Without(r.queues[p], |s.queues[p]|) == s.queues[p];
    assert r.queues[p := s.queues[p]] == s.queues && r.level[p := s.level[p]] == s.level;
  }

  /**
   * A cancel straight after an add, by the handle the add answered, gives back queues and freelist; and the totals
   * unless the add wrapped one.
   */
  lemma CancelUndoesAdd(rule: Rule, d: Desk, isBid: bool, price: uint32, id: uint64, qty: uint32)
    requires BookShaped(d.book) && OnceEach(d) && price < |d.book.bid.queues| && d.free != []
    ensures var (d', o) := Step(rule, d, Enqueue(isBid, price, id, qty));
      && o.Handle?
      && var after := Step(rule, d', Dequeue(o.idx)).0;
         && after.free == d.free
         && after.book.bid.queues == d.book.bid.queues && after.book.ask.queues == d.book.ask.queues
         && (SideOf(d.book, isBid).level[price] + qty < TWO32 ==>
               after.book.bid.level == d.book.bid.level && after.book.ask.level == d.book.ask.level)
  {
    var s, e := SideOf(d.book, isBid), Entry(d.free[0], id, qty);
    var op := Enqueue(isBid, price, id, qty);
    StepKeepsOnce(rule, d, op);
    DropUndoesAdd(rule, isBid, s, price, e);
    AddPlaces(isBid, s, price, e);
    hide OnceEach, AddSide, DropSide;
    var (d', o) := Step(rule, d, op);
    assert At(d'.book, Loc(isBid, price, |s.queues[price]|), o.idx);
    CancelAt(rule, d', Loc(isBid, price, |s.queues[price]|), o.idx);
    assert [d.free[0]] + d.free[1..] == d.free;
  }

  lemma AddPlaces(isBid: bool, s: Side, p: uint32, e: Entry)
    requires Shaped(isBid, s) && p < |s.queues|
    ensures AddSide(isBid, s, p, e).queues == s.queues[p := s.queues[p] + [e]]
  {
  }

  // ---- trades ----

  function Reverse(s: seq<uint32>): (r: seq<uint32>)
    ensures |r| == |s| && forall k | 0 <= k < |s| :: r[k] == s[|s| - 1 - k]
  {
    seq(|s|, k requires 0 <= k < |s| => s[|s| - 1 - k])
  }

  /** The slot released last is the first to be taken again. */
  lemma {:induction false} ReleaseReverses(free: seq<uint32>, released: seq<uint32>)
    ensures Release(free, released) == Reverse(released) + free
    decreases |released|
  {
    if released == [] {
      assert Reverse(released) + free == free;
    } else {
      ReleaseReverses([released[0]] + free, released[1..]);
      assert Reverse(released[1..]) + [released[0]] == Reverse(released);
      assert Reverse(released[1..]) + ([released[0]] + free) == (Reverse(released[1..]) + [released[0]]) + free;
    }
  }

  /**
   * What a trade leaves of a queue when it takes n orders whole, none of them once the quantity is filled: the
   * others, the first of them shortened at most.
   */
  ghost predicate LeftAfter(q: Queue, q': Queue, n: nat, qty: nat) {
    && n <= |q| && (forall j | 0 <= j < n :: Volume(q[..j]) < qty)
    && (q' == q[n..] || (n < |q| && Shortened(q[n..], q')))
  }

  ghost predicate Shortened(q: Queue, q': Queue) {
    && |q'| == |q| > 0 && q'[1..] == q[1..]
    && q'[0].slot == q[0].slot && q'[0].id == q[0].id && 0 < q'[0].qty < q[0].qty
  }

  lemma MatchLeaves(q: Queue, qty: nat, n: nat, rest: Queue, filled: nat)
    requires FifoMatch(q, qty, n, rest, filled)
    ensures LeftAfter(q, rest, n, qty) && (rest != q[n..] ==> filled == qty)
  {
    if n < |q| {
      assert q[n..][1..] == q[n + 1..] == rest[1..];
      assert rest[0] == q[n] ==> rest == q[n..];
    }
  }

  lemma TradeLeaves(rule: Rule, isBid: bool, s: Side, p: uint32, qty: uint32) returns (n: nat)
    requires Shaped(isBid, s) && p < |s.queues|
    ensures var f := TradeSide(rule, isBid, s, p, qty);
      && f.side.queues == s.queues[p := f.side.queues[p]]
      && f.filled == Min(qty, Volume(s.queues[p])) && Volume(f.side.queues[p]) == Volume(s.queues[p]) - f.filled
      && LeftAfter(s.queues[p], f.side.queues[p], n, qty) && f.released == Slots(s.queues[p][..n])
      && (f.side.queues[p] != s.queues[p][n..] ==> f.filled == qty)
  {
    n := TradeIsFifo(rule, isBid, s, p, qty);
    TradeFills(rule, isBid, s, p, qty);
    hide TradeSide, FifoMatch, LeftAfter;
    var f := TradeSide(rule, isBid, s, p, qty);
    MatchLeaves(s.queues[p], qty, n, f.side.queues[p], f.filled);
    assert n <= |s.queues[p]| by { MatchWithin(s.queues[p], qty, n, f.side.queues[p], f.filled); }
  }

  lemma MatchWithin(q: Queue, qty: nat, n: nat, rest: Queue, filled: nat)
    requires FifoMatch(q, qty, n, rest, filled)
    ensures n <= |q|
  {
  }

  /**
   * A trade answers the lesser of the quantity and the volume of the queue at its price, and 0 out of range. It
   * takes the first n orders whole, shortens at most the next, and then only to fill all that was asked; it frees
   * exactly the taken slots, the last taken first, and changes no other queue.
   */
  lemma TradeAnswers(rule: Rule, d: Desk, isBid: bool, price: uint32, qty: uint32) returns (n: nat)
    requires BookShaped(d.book)
    ensures var (d', o) := Step(rule, d, Trade(isBid, price, qty));
      if price >= |d.book.bid.queues| then d' == d && o == Filled(0)
      else
        var q, q' := SideOf(d.book, isBid).queues[price], SideOf(d'.book, isBid).queues[price];
        && o == Filled(Min(qty, Volume(q))) && Volume(q') == Volume(q) - o.qty
        && LeftAfter(q, q', n, qty) && (q' != q[n..] ==> o.qty == qty)
        && d'.free == Reverse(Slots(q[..n])) + d.free
        && OthersSame(d.book, d'.book, isBid, price)
  {
    n := 0;
    if price < |d.book.bid.queues| {
      var s := SideOf(d.book, isBid);
      n := TradeLeaves(rule, isBid, s, price, qty);
      hide TradeSide, LeftAfter;
      ReleaseReverses(d.free, TradeSide(rule, isBid, s, price, qty).released);
      assert n <= |s.queues[price]| by {
        LeftWithin(s.queues[price], TradeSide(rule, isBid, s, price, qty).side.queues[price], n, qty);
      }
    }
  }

  lemma LeftWithin(q: Queue, q': Queue, n: nat, qty: nat)
    requires LeftAfter(q, q', n, qty)
    ensures n <= |q|
  {
  }

  /** A side after cancelling the first n orders of a queue, one by one. */
  function DropHeads(rule: Rule, isBid: bool, s: Side, p: uint32, n: nat): (r: Side)
    requires Shaped(isBid, s) && p < |s.queues| && n <= |s.queues[p]|
    decreases n
  {
    if n == 0 then s
    else
      HeadOff(s.queues[p]);
      DropHeads(rule, isBid, DropSide(rule, isBid, s, p, 0), p, n - 1)
  }

  /** The first n orders of a queue cancelled one by one, and then part of the next one filled if quantity is left. */
  ghost predicate CancelsThenFill(rule: Rule, isBid: bool, s: Side, p: uint32, qty: nat, n: nat, after: Side)
    requires Shaped(isBid, s) && p < |s.queues|
  {
    && n <= |s.queues[p]| && Volume(s.queues[p][..n]) <= qty
    && var r, left := DropHeads(rule, isBid, s, p, n), qty - Volume(s.queues[p][..n]);
       && |r.queues| == |r.level| == |s.queues| && r.queues[p] == s.queues[p][n..]
       && if left == 0 || n == |s.queues[p]| then after == r
          else left < s.queues[p][n].qty && after == ShrinkSide(r, p, left)
  }

  lemma FillOnly(rule: Rule, isBid: bool, s: Side, p: uint32, qty: uint32)
    requires Shaped(isBid, s) && p < |s.queues| && (qty == 0 || s.queues[p] == [] || s.queues[p][0].qty > qty)
    ensures CancelsThenFill(rule, isBid, s, p, qty, 0, TradeSide(rule, isBid, s, p, qty).side)
  {
    assert s.queues[p][..0] == [] && s.queues[p][0..] == s.queues[p];
  }

  lemma CancelFirst(rule: Rule, isBid: bool, s: Side, p: uint32, qty: nat, m: nat, after: Side)
    requires Shaped(isBid, s) && p < |s.queues| && s.queues[p] != [] && s.queues[p][0].qty <= qty
    requires CancelsThenFill(rule, isBid, DropSide(rule, isBid, s, p, 0), p, qty - s.queues[p][0].qty, m, after)
    ensures CancelsThenFill(rule, isBid, s, p, qty, m + 1, after)
  {
    hide DropSide, ShrinkSide;
    var q := s.queues[p];
    HeadOff(q);
    HeadOff(q[..m + 1]);
    assert q[..m + 1][1..] == q[1..][..m] && q[1..][m..] == q[m + 1..];
    assert m < |q[1..]| ==> q[1..][m] == q[m + 1];
  }

  lemma TakeFirst(rule: Rule, isBid: bool, s: Side, p: uint32, qty: uint32)
    requires Shaped(isBid, s) && p < |s.queues| && qty > 0 && s.queues[p] != [] && s.queues[p][0].qty <= qty
    ensures var next := DropSide(rule, isBid, s, p, 0);
      && |next.queues| == |s.queues| && next.queues[p] == s.queues[p][1..]
      && TradeSide(rule, isBid, s, p, qty).side == TradeSide(rule, isBid, next, p, qty - s.queues[p][0].qty).side
  {
    hide Repair;
    HeadOff(s.queues[p]);
  }

  /** A trade does to a side what cancelling the orders it takes whole does, and then a partial fill. */
  lemma {:induction false} TradeIsCancels(rule: Rule, isBid: bool, s: Side, p: uint32, qty: uint32) returns (n: nat)
    requires Shaped(isBid, s) && p < |s.queues|
    ensures CancelsThenFill(rule, isBid, s, p, qty, n, TradeSide(rule, isBid, s, p, qty).side)
    decreases |s.queues[p]|
  {
    hide TradeSide, DropSide, CancelsThenFill;
    if qty == 0 || s.queues[p] == [] || s.queues[p][0].qty > qty {
      n := 0;
      FillOnly(rule, isBid, s, p, qty);
    } else {
      var head := s.queues[p][0];
      TakeFirst(rule, isBid, s, p, qty);
      var m := TradeIsCancels(rule, isBid, DropSide(rule, isBid, s, p, 0), p, qty - head.qty);
      n := m + 1;
      CancelFirst(rule, isBid, s, p, qty, m, TradeSide(rule, isBid, s, p, qty).side);
    }
  }

  // ---- clearing ----

  /**
   * How many orders clear frees before the one at a place, from price i on: lower prices first, bids before asks,
   * then in order of arrival.
   */
  function FreedBefore(b: Book, i: nat, l: Loc): (n: nat)
    requires |b.bid.queues| == |b.ask.queues| && i <= l.price < |b.bid.queues|
    decreases l.price - i
  {
    if i < l.price then |b.bid.queues[i]| + |b.ask.queues[i]| + FreedBefore(b, i + 1, l)
    else l.k + if l.isBid then 0 else |b.bid.queues[i]|
  }

  lemma {:induction false} ClearOrderAt(b: Book, i: nat, l: Loc, slot: uint32)
    requires |b.bid.queues| == |b.ask.queues| && At(b, l, slot) && i <= l.price
    ensures FreedBefore(b, i, l) < |ClearOrder(b, i)| && ClearOrder(b, i)[FreedBefore(b, i, l)] == slot
    decreases l.price - i
  {
    if i < l.price { ClearOrderAt(b, i + 1, l, slot); }
  }

  /** Clearing leaves no order, no total and no best price, and frees each resting order in its turn. */
  lemma ClearAnswers(rule: Rule, d: Desk)
    requires BookShaped(d.book)
    ensures var (d', o) := Step(rule, d, Clear);
      && o == Done && d'.book.bid.best == 0 && d'.book.ask.best == INVALID_PRICE
      && |d'.book.bid.queues| == |d'.book.ask.queues| == |d.book.bid.queues|
      && (forall p | 0 <= p < |d'.book.bid.queues| ::
            && d'.book.bid.queues[p] == [] && d'.book.ask.queues[p] == []
            && d'.book.bid.level[p] == 0 && d'.book.ask.level[p] == 0)
      && exists freed: seq<uint32> ::
           && d'.free == Reverse(freed) + d.free && |freed| == TallyBook(d.book, None)
           && forall l: Loc, slot: uint32 | At(d.book, l, slot) ::
                FreedBefore(d.book, 0, l) < |freed| && freed[FreedBefore(d.book, 0, l)] == slot
  {
    var freed := ClearOrder(d.book, 0);
    ReleaseReverses(d.free, freed);
    ClearOrderTally(d.book, 0, None);
    TallyAll(freed);
    assert d.book.bid.queues[0..] == d.book.bid.queues && d.book.ask.queues[0..] == d.book.ask.queues;
    forall l: Loc, slot: uint32 | At(d.book, l, slot)
      ensures FreedBefore(d.book, 0, l) < |freed| && freed[FreedBefore(d.book, 0, l)] == slot
    {
      ClearOrderAt(d.book, 0, l, slot);
    }
  }

  // ---- quantities over runs ----

  function SideVolume(queues: seq<Queue>): (v: nat) {
    if queues == [] then 0 else Volume(queues[0]) + SideVolume(queues[1..])
  }

  /** All that rests in a book. */
  function BookVolume(b: Book): (v: nat) {
    SideVolume(b.bid.queues) + SideVolume(b.ask.queues)
  }

  lemma {:induction false} SideVolumeUpdate(queues: seq<Queue>, p: nat, q: Queue)
    requires p < |queues|
    ensures SideVolume(queues[p := q]) + Volume(queues[p]) == SideVolume(queues) + Volume(q)
    decreases |queues|
  {
    if p == 0 {
      assert queues[p := q][1..] == queues[1..];
    } else {
      SideVolumeUpdate(queues[1..], p - 1, q);
      assert queues[p := q][1..] == queues[1..][p - 1 := q];
    }
  }

  lemma {:induction false} NoVolume(n: nat)
    ensures SideVolume(seq(n, _ => [])) == 0
  {
    if n > 0 {
      var queues: seq<Queue> := seq(n, _ => []);
      assert queues[1..] == seq(n - 1, _ => []);
      NoVolume(n - 1);
    }
  }

  /** What an add brings in: its quantity if it is accepted. */
  function Entering(d: Desk, op: Op): (v: nat) {
    if op.Enqueue? && op.price < |d.book.bid.queues| && d.free != [] then op.qty else 0
  }

  /** What a cancel takes out: the quantity left of the order; and a clear, everything. */
  ghost function Cancelled(d: Desk, op: Op): (v: nat) {
    match op
    case Dequeue(slot) =>
      (match Find(d.book, slot)
       case Some(l) => SideOf(d.book, l.isBid).queues[l.price][l.k].qty
       case None => 0)
    case Clear => BookVolume(d.book)
    case _ => 0
  }

  function FillOf(o: Outcome): (v: nat) {
    if o.Filled? then o.qty else 0
  }

  lemma BookVolumeUpdate(b: Book, isBid: bool, s: Side, p: nat)
    requires p < |SideOf(b, isBid).queues| == |s.queues|
    requires s.queues == SideOf(b, isBid).queues[p := s.queues[p]]
    ensures BookVolume(WithSide(b, isBid, s)) + Volume(SideOf(b, isBid).queues[p])
         == BookVolume(b) + Volume(s.queues[p])
  {
    hide SideVolume;
    SideVolumeUpdate(SideOf(b, isBid).queues, p, s.queues[p]);
  }

  lemma EmptyVolume(levels: nat)
    ensures BookVolume(EmptyBook(levels)) == 0
  {
    NoVolume(levels);
  }

  /** What rests afterwards, was filled and was cancelled is what rested before and entered. */
  lemma StepVolume(rule: Rule, d: Desk, op: Op)
    requires BookShaped(d.book)
    ensures var (d', o) := Step(rule, d, op);
      BookVolume(d'.book) + FillOf(o) + Cancelled(d, op) == BookVolume(d.book) + Entering(d, op)
  {
    hide AddSide, DropSide, TradeSide, BookVolume, LeftAfter, EmptyBook;
    match op
    case Enqueue(isBid, price, id, qty) =>
      if price < |d.book.bid.queues| && d.free != [] {
        var s, e := SideOf(d.book, isBid), Entry(d.free[0], id, qty);
        AddPlaces(isBid, s, price, e);
        VolumeAppend(s.queues[price], e);
        BookVolumeUpdate(d.book, isBid, AddSide(isBid, s, price, e), price);
      }
    case Dequeue(slot) =>
      var f := Find(d.book, slot);
      if f.Some? {
        var l := f.value;
        var s := SideOf(d.book, l.isBid);
        VolumeWithout(s.queues[l.price], l.k);
        BookVolumeUpdate(d.book, l.isBid, DropSide(rule, l.isBid, s, l.price, l.k), l.price);
      }
    case Trade(isBid, price, qty) =>
      if price < |d.book.bid.queues| {
        var s := SideOf(d.book, isBid);
        var n := TradeLeaves(rule, isBid, s, price, qty);
        BookVolumeUpdate(d.book, isBid, TradeSide(rule, isBid, s, price, qty).side, price);
      }
    case Clear =>
      EmptyVolume(|d.book.bid.queues|);
  }

  function Fills(outs: seq<Outcome>): (v: nat) {
    if outs == [] then 0 else FillOf(outs[0]) + Fills(outs[1..])
  }

  ghost function Entered(rule: Rule, d: Desk, ops: seq<Op>): (v: nat)
    requires BookShaped(d.book)
    decreases |ops|
  {
    if ops == [] then 0 else Entering(d, ops[0]) + Entered(rule, Step(rule, d, ops[0]).0, ops[1..])
  }

  ghost function CancelledIn(rule: Rule, d: Desk, ops: seq<Op>): (v: nat)
    requires BookShaped(d.book)
    decreases |ops|
  {
    if ops == [] then 0 else Cancelled(d, ops[0]) + CancelledIn(rule, Step(rule, d, ops[0]).0, ops[1..])
  }

  /**
   * Over every run, what rests at the end, all fills answered and all that was cancelled add up to what rested at
   * first and what entered.
   */
  lemma {:induction false} VolumeConserved(rule: Rule, d: Desk, ops: seq<Op>)
    requires BookShaped(d.book)
    ensures var (last, outs) := Run(rule, d, ops);
      BookVolume(last.book) + Fills(outs) + CancelledIn(rule, d, ops) == BookVolume(d.book) + Entered(rule, d, ops)
    decreases |ops|
  {
    hide BookVolume, Step, Entering, Cancelled, FillOf;
    if ops != [] {
      var (next, o) := Step(rule, d, ops[0]);
      StepVolume(rule, d, ops[0]);
      VolumeConserved(rule, next, ops[1..]);
      var outs := Run(rule, next, ops[1..]).1;
      assert ([o] + outs)[1..] == outs;
    }
  }
}
