/** The book of queues refines the book of totals. */
module TotalsRefinement {
  import opened Machine
  import opened BookSpec
  import opened BookTheorems
  import opened TotalsBook

  function TotalsOf(s: Side): (t: Totals) {
    Totals(s.level, s.best)
  }

  /** A scan from an empty best price moves away from it, unless it is the bottom of the bids. */
  lemma ScanMoves(isBid: bool, level: seq<uint32>, p: uint32)
    requires 1 <= |level| < 0x8000_0000 && p < |level| && level[p] == 0
    ensures ScanBest(isBid, level, p) == p <==> (isBid && p == 0)
  {
  }

  // ---- one trade, whatever the totals say ----

  /** How many orders a trade takes whole. */
  function Whole(q: Queue, qty: nat): (n: nat)
    ensures n <= |q|
  {
    if qty == 0 || q == [] || q[0].qty > qty then 0 else 1 + Whole(q[1..], qty - q[0].qty)
  }

  /** The quantity of the orders a trade takes whole. */
  function Spent(q: Queue, qty: nat): (v: nat)
    ensures v <= qty
  {
    if qty == 0 || q == [] || q[0].qty > qty then 0 else q[0].qty + Spent(q[1..], qty - q[0].qty)
  }

  /** Subtraction that stops at zero. */
  function Less(a: nat, b: nat): (r: nat) {
    if a >= b then a - b else 0
  }

  /** The level total after a trade: orders taken whole come off with a clamp, a part of the next one without. */
  function LevelAfter(q: Queue, level: uint32, qty: uint32): (r: uint32) {
    if Whole(q, qty) == |q| || Spent(q, qty) == qty then Less(level, Spent(q, qty))
    else (Less(level, Spent(q, qty)) - (qty - Spent(q, qty))) % TWO32
  }

  lemma LevelAfterTakes(q: Queue, level: uint32, qty: uint32)
    requires qty > 0 && q != [] && q[0].qty <= qty
    ensures LevelAfter(q, level, qty) == LevelAfter(q[1..], Less(level, q[0].qty), qty - q[0].qty)
  {
  }

  lemma TradeTakesFirst(rule: Rule, isBid: bool, s: Side, p: uint32, qty: uint32)
    requires Shaped(isBid, s) && p < |s.queues| && qty > 0 && s.queues[p] != [] && s.queues[p][0].qty <= qty
    ensures var next, e := DropSide(rule, isBid, s, p, 0), s.queues[p][0];
      && TradeSide(rule, isBid, s, p, qty).side == TradeSide(rule, isBid, next, p, qty - e.qty).side
      && next.queues == s.queues[p := s.queues[p][1..]] && next.level == s.level[p := Less(s.level[p], e.qty)]
  {
    hide Repair;
    HeadOff(s.queues[p]);
  }

  lemma TradeShrinks(rule: Rule, isBid: bool, s: Side, p: uint32, qty: uint32)
    requires Shaped(isBid, s) && p < |s.queues| && (qty == 0 || s.queues[p] == [] || s.queues[p][0].qty > qty)
    ensures TradeSide(rule, isBid, s, p, qty).side.level == s.level[p := LevelAfter(s.queues[p], s.level[p], qty)]
  {
  }

  lemma {:induction false} TradeLevel(rule: Rule, isBid: bool, s: Side, p: uint32, qty: uint32)
    requires Shaped(isBid, s) && p < |s.queues|
    ensures TradeSide(rule, isBid, s, p, qty).side.level == s.level[p := LevelAfter(s.queues[p], s.level[p], qty)]
    decreases |s.queues[p]|
  {
    hide TradeSide, DropSide, LevelAfter, Less, Repair;
    var q := s.queues[p];
    if qty > 0 && q != [] && q[0].qty <= qty {
      LevelAfterTakes(q, s.level[p], qty);
      TradeTakesFirst(rule, isBid, s, p, qty);
      TradeLevel(rule, isBid, DropSide(rule, isBid, s, p, 0), p, qty - q[0].qty);
    } else {
      TradeShrinks(rule, isBid, s, p, qty);
    }
  }

  /** The best price after a trade: repaired as soon as the orders taken whole bring its total to zero. */
  function BestAfter(isBid: bool, s: Side, p: uint32, qty: uint32): (r: uint32)
    requires Shaped(isBid, s) && p < |s.queues|
  {
    if p == s.best && Whole(s.queues[p], qty) > 0 && s.level[p] <= Spent(s.queues[p], qty)
    then ScanBest(isBid, s.level[p := 0], p) else s.best
  }

  lemma BestAfterTakes(isBid: bool, s: Side, p: uint32, qty: uint32)
    requires Shaped(isBid, s) && p < |s.queues| && qty > 0 && s.queues[p] != [] && s.queues[p][0].qty <= qty
    ensures BestAfter(isBid, s, p, qty)
         == BestAfter(isBid, DropSide(Scan, isBid, s, p, 0), p, qty - s.queues[p][0].qty)
  {
    hide ScanBest;
    var q, next := s.queues[p], DropSide(Scan, isBid, s, p, 0);
    HeadOff(q);
    assert next.queues[p] == q[1..] && next.level[p] == Less(s.level[p], q[0].qty);
    assert Whole(q, qty) == 1 + Whole(q[1..], qty - q[0].qty);
    assert Spent(q, qty) == q[0].qty + Spent(q[1..], qty - q[0].qty);
    assert next.level[p := 0] == s.level[p := 0];
    if p == s.best && next.level[p] == 0 {
      assert next.level == s.level[p := 0];
      ScanMoves(isBid, next.level, p);
      assert next.best == ScanBest(isBid, next.level, p);
    } else {
      assert next.best == s.best;
      assert Whole(q[1..], qty - q[0].qty) == 0 ==> Spent(q[1..], qty - q[0].qty) == 0;
    }
  }

  lemma {:induction false} TradeBest(isBid: bool, s: Side, p: uint32, qty: uint32)
    requires Shaped(isBid, s) && p < |s.queues|
    ensures TradeSide(Scan, isBid, s, p, qty).side.best == BestAfter(isBid, s, p, qty)
    decreases |s.queues[p]|
  {
    if qty > 0 && s.queues[p] != [] && s.queues[p][0].qty <= qty {
      hide DropSide, BestAfter;
      HeadOff(s.queues[p]);
      BestAfterTakes(isBid, s, p, qty);
      TradeBest(isBid, DropSide(Scan, isBid, s, p, 0), p, qty - s.queues[p][0].qty);
    }
  }

  /**
   * When a trade on queues and a trade on totals agree. The totals do when the orders taken whole make up the
   * quantity, or use up the queue and bring the total to zero, or leave a part of the next order that the total
   * covers. The best prices do when a total that the trade brings to zero is brought there by orders taken whole.
   */
  predicate TradeMatches(isBid: bool, s: Side, p: uint32, qty: uint32)
    requires p < |s.queues| == |s.level|
  {
    var q, level := s.queues[p], s.level[p];
    && (Spent(q, qty) == qty || (if Whole(q, qty) == |q| then level <= Spent(q, qty) else level >= qty))
    && (p != s.best || (isBid && p == 0) || (level <= qty ==> Whole(q, qty) > 0 && level <= Spent(q, qty)))
  }

  lemma TradeRefinesTotals(isBid: bool, s: Side, p: uint32, qty: uint32)
    requires Shaped(isBid, s) && p < |s.queues|
    ensures TotalsOf(TradeSide(Scan, isBid, s, p, qty).side) == TradeTotals(isBid, TotalsOf(s), p, qty)
      <==> TradeMatches(isBid, s, p, qty)
  {
    hide TradeSide, Whole, Spent, ScanBest;
    TradeLevel(Scan, isBid, s, p, qty);
    TradeBest(isBid, s, p, qty);
    ScanMoves(isBid, s.level[p := 0], p);
    var q, level := s.queues[p], s.level[p];
    assert LevelAfter(q, level, qty) == Less(level, qty) <==>
      Spent(q, qty) == qty || (if Whole(q, qty) == |q| then level <= Spent(q, qty) else level >= qty);
    assert s.level[p := LevelAfter(q, level, qty)] == s.level[p := Less(level, qty)] <==>
      LevelAfter(q, level, qty) == Less(level, qty) by {
      assert s.level[p := LevelAfter(q, level, qty)][p] == LevelAfter(q, level, qty);
      assert s.level[p := Less(level, qty)][p] == Less(level, qty);
    }
  }

  // ---- one trade while totals are exact ----

  /** A queue is used up, or holds at least what was asked. */
  lemma {:induction false} UsedUpOrEnough(q: Queue, qty: nat)
    ensures if Whole(q, qty) == |q| then Spent(q, qty) == Volume(q)
            else Volume(q) >= qty && (Volume(q) == qty ==> Spent(q, qty) == qty)
    ensures Whole(q, qty) > 0 <==> qty > 0 && q != [] && q[0].qty <= qty
    decreases |q|
  {
    if qty > 0 && q != [] && q[0].qty <= qty { UsedUpOrEnough(q[1..], qty - q[0].qty); }
  }

  /** While totals are exact, the loop over orders in arrival order is a saturating subtraction on the total. */
  lemma TradeSubtracts(isBid: bool, s: Side, p: uint32, qty: uint32)
    requires Shaped(isBid, s) && p < |s.queues| && LevelsAgree(s)
    ensures TradeSide(Scan, isBid, s, p, qty).side.level == s.level[p := Less(s.level[p], qty)]
  {
    hide TradeSide, Whole, Spent;
    TradeLevel(Scan, isBid, s, p, qty);
    UsedUpOrEnough(s.queues[p], qty);
  }

  /** The trade has something to take at a price that is not known to be empty. */
  predicate TakesAtBest(isBid: bool, s: Side, p: uint32, qty: uint32)
    requires p < |s.queues| == |s.level|
  {
    p != s.best || s.level[p] > 0 || (qty > 0 && s.queues[p] != []) || (isBid && p == 0)
  }

  /** While totals are exact, only a trade that takes no order at an empty best price does not match. */
  lemma ExactMatchesIff(isBid: bool, s: Side, p: uint32, qty: uint32)
    requires Shaped(isBid, s) && p < |s.queues| && LevelsAgree(s)
    ensures TradeMatches(isBid, s, p, qty) <==> TakesAtBest(isBid, s, p, qty)
  {
    hide Whole, Spent;
    UsedUpOrEnough(s.queues[p], qty);
    if s.queues[p] != [] { VolumeOfHead(s.queues[p]); }
  }

  // ---- whole runs ----

  datatype TotalsPair = TotalsPair(bid: Totals, ask: Totals)

  function TotalsOfBook(b: Book): (t: TotalsPair) {
    TotalsPair(TotalsOf(b.bid), TotalsOf(b.ask))
  }

  predicate PairShaped(t: TotalsPair) {
    TotalsShaped(true, t.bid) && TotalsShaped(false, t.ask) && |t.bid.qty| == |t.ask.qty|
  }

  function StepTotals(t: TotalsPair, op: Op): (r: TotalsPair)
    requires PairShaped(t)
    ensures PairShaped(r) && |r.bid.qty| == |t.bid.qty|
  {
    match op
    case Enqueue(isBid, p, _, qty) =>
      if p >= |t.bid.qty| then t
      else if isBid then t.(bid := AddTotals(true, t.bid, p, qty)) else t.(ask := AddTotals(false, t.ask, p, qty))
    case Trade(isBid, p, qty) =>
      if p >= |t.bid.qty| then t
      else if isBid then t.(bid := TradeTotals(true, t.bid, p, qty)) else t.(ask := TradeTotals(false, t.ask, p, qty))
    case _ => t
  }

  /** An add and a trade, the operations a book of totals has. */
  predicate Common(op: Op) {
    op.Enqueue? || op.Trade?
  }

  /**
   * What can be told before an operation: an add matches unless it is refused for want of a slot and would have
   * changed the totals; a trade matches as said above.
   */
  predicate Matches(d: Desk, op: Op)
    requires BookShaped(d.book) && Common(op)
  {
    var s := SideOf(d.book, op.isBid);
    op.price >= |d.book.bid.queues| ||
    if op.Enqueue? then d.free != [] || (op.qty == 0 && !Beyond(op.isBid, op.price, s.best))
    else TradeMatches(op.isBid, s, op.price, op.qty)
  }

  lemma StepRefinesTotals(d: Desk, op: Op)
    requires BookShaped(d.book) && Common(op)
    ensures TotalsOfBook(Step(Scan, d, op).0.book) == StepTotals(TotalsOfBook(d.book), op) <==> Matches(d, op)
  {
    hide TradeSide, TradeTotals, TradeMatches;
    if op.price < |d.book.bid.queues| {
      var s := SideOf(d.book, op.isBid);
      if op.Trade? {
        TradeRefinesTotals(op.isBid, s, op.price, op.qty);
      } else if d.free == [] {
        assert s.level[op.price := (s.level[op.price] + op.qty) % TWO32][op.price]
            == (s.level[op.price] + op.qty) % TWO32;
        assert s.level[op.price := s.level[op.price]] == s.level;
      }
    }
  }

  ghost predicate AllCommon(ops: seq<Op>) {
    forall i | 0 <= i < |ops| :: Common(ops[i])
  }

  ghost predicate MatchingRun(d: Desk, ops: seq<Op>)
    requires BookShaped(d.book) && AllCommon(ops)
    decreases |ops|
  {
    ops == [] || (Matches(d, ops[0]) && MatchingRun(Step(Scan, d, ops[0]).0, ops[1..]))
  }

  /** Before and after each operation, the book of totals has the totals and best prices of the queue book. */
  ghost predicate TotalsFollow(d: Desk, t: TotalsPair, ops: seq<Op>)
    requires BookShaped(d.book) && PairShaped(t)
    decreases |ops|
  {
    && t == TotalsOfBook(d.book)
    && (ops == [] || TotalsFollow(Step(Scan, d, ops[0]).0, StepTotals(t, ops[0]), ops[1..]))
  }

  /**
   * Over every run of adds and trades, from any book and however totals wrap, the queue book and the book of
   * totals keep the same totals and best prices throughout precisely when every operation matches.
   */
  lemma {:induction false} QueuesRefineTotalsIff(d: Desk, ops: seq<Op>)
    requires BookShaped(d.book) && AllCommon(ops)
    ensures TotalsFollow(d, TotalsOfBook(d.book), ops) <==> MatchingRun(d, ops)
    decreases |ops|
  {
    hide Matches, Step, StepTotals;
    if ops != [] {
      StepRefinesTotals(d, ops[0]);
      if Matches(d, ops[0]) { QueuesRefineTotalsIff(Step(Scan, d, ops[0]).0, ops[1..]); }
    }
  }

  // ---- runs that neither overflow nor are refused ----

  /** An add that finds a slot and fits its total, or a trade. */
  ghost predicate Plain(d: Desk, op: Op)
    requires BookShaped(d.book)
  {
    (op.Enqueue? && d.free != [] && NoOverflow(d, op)) || op.Trade?
  }

  ghost predicate PlainRun(d: Desk, ops: seq<Op>)
    requires BookShaped(d.book)
    decreases |ops|
  {
    ops == [] || (Plain(d, ops[0]) && PlainRun(Step(Scan, d, ops[0]).0, ops[1..]))
  }

  predicate Takes(d: Desk, op: Op)
    requires BookShaped(d.book)
  {
    op.Trade? && op.price < |d.book.bid.queues| ==>
      TakesAtBest(op.isBid, SideOf(d.book, op.isBid), op.price, op.qty)
  }

  ghost predicate TakingRun(d: Desk, ops: seq<Op>)
    requires BookShaped(d.book)
    decreases |ops|
  {
    ops == [] || (Takes(d, ops[0]) && TakingRun(Step(Scan, d, ops[0]).0, ops[1..]))
  }

  lemma PlainMatchesIff(d: Desk, op: Op)
    requires BookShaped(d.book) && LevelsAgree(d.book.bid) && LevelsAgree(d.book.ask) && Plain(d, op)
    ensures Common(op) && (Matches(d, op) <==> Takes(d, op))
    ensures var b := Step(Scan, d, op).0.book; LevelsAgree(b.bid) && LevelsAgree(b.ask)
  {
    hide TradeMatches, TakesAtBest, LevelsAgree, Step;
    StepKeepsLevelsIff(Scan, d, op);
    if op.Trade? && op.price < |d.book.bid.queues| {
      ExactMatchesIff(op.isBid, SideOf(d.book, op.isBid), op.price, op.qty);
    }
  }

  /** Such a run matches throughout precisely when no trade of it takes no order at an empty best price. */
  lemma {:induction false} PlainRunMatchesIff(d: Desk, ops: seq<Op>)
    requires BookShaped(d.book) && LevelsAgree(d.book.bid) && LevelsAgree(d.book.ask) && PlainRun(d, ops)
    ensures AllCommon(ops) && (MatchingRun(d, ops) <==> TakingRun(d, ops))
    decreases |ops|
  {
    hide LevelsAgree, Matches, Takes, Plain, Step;
    if ops != [] {
      PlainMatchesIff(d, ops[0]);
      PlainRunMatchesIff(Step(Scan, d, ops[0]).0, ops[1..]);
      assert forall i | 1 <= i < |ops| :: ops[i] == ops[1..][i - 1];
    }
  }

  /** Where best prices are exact, every trade takes an order or leaves the best price alone. */
  lemma ExactTakes(d: Desk, op: Op)
    requires BookExact(d.book)
    ensures Takes(d, op)
  {
  }

  /** Runs of sound adds and of trades match throughout. */
  lemma {:induction false} QueuesRefineTotals(d: Desk, ops: seq<Op>)
    requires BookExact(d.book) && PlainRun(d, ops) && SoundRun(Scan, d, ops)
    ensures TakingRun(d, ops) && AllCommon(ops) && TotalsFollow(d, TotalsOfBook(d.book), ops)
    decreases |ops|
  {
    hide LevelsAgree, BestHasVolume, Takes, Plain, Sound, Step, StepTotals;
    PlainRunMatchesIff(d, ops);
    QueuesRefineTotalsIff(d, ops);
    if ops != [] {
      ExactTakes(d, ops[0]);
      StepKeepsExactIff(Scan, d, ops[0]);
      QueuesRefineTotals(Step(Scan, d, ops[0]).0, ops[1..]);
    }
  }

  // ---- the ways to part, each reached from the start ----

  /** One add of quantity 0 reaches a book where a trade of quantity 0 does not match. */
  lemma TradeCanMismatch()
    ensures var d := Step(Scan, Desk(EmptyBook(10), [0]), Enqueue(false, 5, 7, 0)).0;
      && !Matches(d, Trade(false, 5, 0))
      && Step(Scan, d, Trade(false, 5, 0)).0.book.ask.best == 5
      && StepTotals(TotalsOfBook(d.book), Trade(false, 5, 0)).ask.best == INVALID_PRICE
  {
    var s := Step(Scan, Desk(EmptyBook(10), [0]), Enqueue(false, 5, 7, 0)).0.book.ask;
    assert s.queues[5] == [Entry(0, 7, 0)] && s.best == 5;
    assert forall p | 0 <= p < 10 :: s.level[p] == 0;
    assert s.level[5 := 0] == s.level;
    assert ScanUp(s.level, 5) == 10;
  }

  /**
   * Two adds wrap a total in both books alike. Then a partial fill of 1, which is taken off without a clamp,
   * leaves the queue book with a total of 2^32 - 1 and the book of totals with 0.
   */
  lemma WrappedTradeMismatches()
    ensures TotalsOfBook(OverflownDesk().book).bid.qty[5] == 0
    ensures !Matches(OverflownDesk(), Trade(true, 5, 1))
    ensures Step(Scan, OverflownDesk(), Trade(true, 5, 1)).0.book.bid.level[5] == 0xFFFF_FFFF
    ensures StepTotals(TotalsOfBook(OverflownDesk().book), Trade(true, 5, 1)).bid.qty[5] == 0
  {
    var s := OverflownDesk().book.bid;
    assert s.queues[5] == [Entry(0, 7, 0xFFFF_FFFF), Entry(1, 8, 1)] && s.level[5] == 0;
    assert Whole(s.queues[5], 1) == 0 && Spent(s.queues[5], 1) == 0;
    TradeLevel(Scan, true, s, 5, 1);
  }

  /** An add that is refused for want of a slot is still added to the totals. */
  lemma RefusedAddMismatches()
    ensures var d, op := Desk(EmptyBook(10), []), Enqueue(true, 5, 7, 1);
      && !Matches(d, op)
      && Step(Scan, d, op).0.book.bid.level[5] == 0
      && StepTotals(TotalsOfBook(d.book), op).bid.qty[5] == 1
  {
  }
}
