/**
 * When the scanning book and the tree book agree. An overflow of a level total is harmless at bid price 0 and
 * harmful anywhere else: then some sequence of cancels gives the two books different best prices.
 */
module Separation {
  import opened Machine
  import opened Distinctness
  import opened BookSpec
  import opened BookTheorems
  import opened TotalsRefinement
  import opened Conservation

  // ---- each slot occurs once ----

  /** No slot occurs twice on the freelist and in the book together. */
  ghost predicate OnceEach(d: Desk) {
    forall s: uint32 :: TallyDesk(d, Some(s)) <= 1
  }

  lemma TallyHolds(q: Queue, k: nat)
    requires k < |q|
    ensures TallyQueue(q, Some(q[k].slot)) >= 1
  {
    QueueWithout(q, k, Some(q[k].slot));
  }

  lemma TallyTwice(q: Queue, j: nat, k: nat)
    requires j < k < |q| && q[j].slot == q[k].slot
    ensures TallyQueue(q, Some(q[k].slot)) >= 2
  {
    QueueWithout(q, k, Some(q[k].slot));
    TallyHolds(Without(q, k), j);
  }

  lemma TallyOfOne(queues: seq<Queue>, p: nat, x: Which)
    requires p < |queues|
    ensures TallyQueues(queues, x) == TallyQueues(queues[p := []], x) + TallyQueue(queues[p], x)
  {
    QueuesUpdate(queues, p, [], x);
  }

  /** Two places that hold the same slot are the same place. */
  lemma PlaceIsUnique(d: Desk, l: Loc, l': Loc, slot: uint32)
    requires OnceEach(d) && At(d.book, l, slot) && At(d.book, l', slot)
    ensures l == l'
  {
    var x := Some(slot);
    var queues, queues' := SideOf(d.book, l.isBid).queues, SideOf(d.book, l'.isBid).queues;
    assert TallyDesk(d, x) <= 1;
    TallyHolds(queues[l.price], l.k);
    TallyHolds(queues'[l'.price], l'.k);
    TallyOfOne(queues, l.price, x);
    TallyOfOne(queues', l'.price, x);
    if l.isBid == l'.isBid {
      if l.price != l'.price {
        TallyOfOne(queues[l.price := []], l'.price, x);
      } else if l.k < l'.k {
        TallyTwice(queues[l.price], l.k, l'.k);
      } else if l'.k < l.k {
        TallyTwice(queues[l.price], l'.k, l.k);
      }
    }
  }

  /** Cancelling the order at the head of a queue. */
  lemma HeadCancel(rule: Rule, d: Desk, isBid: bool, p: uint32)
    requires BookShaped(d.book) && OnceEach(d)
    requires p < |SideOf(d.book, isBid).queues| && SideOf(d.book, isBid).queues[p] != []
    ensures var s := SideOf(d.book, isBid);
      var slot := s.queues[p][0].slot;
      Step(rule, d, Dequeue(slot)).0 == Desk(WithSide(d.book, isBid, DropSide(rule, isBid, s, p, 0)), [slot] + d.free)
  {
    hide DropSide, OnceEach;
    var slot := SideOf(d.book, isBid).queues[p][0].slot;
    var l := Loc(isBid, p, 0);
    assert At(d.book, l, slot);
    PlaceIsUnique(d, l, Find(d.book, slot).value, slot);
  }

  // ---- the best price is where orders are ----

  ghost predicate BestStands(isBid: bool, s: Side) {
    s.best == NoBest(isBid) || (s.best < |s.queues| && s.queues[s.best] != [])
  }

  lemma DropKeepsStanding(isBid: bool, s: Side, p: uint32, k: nat)
    requires Shaped(isBid, s) && p < |s.queues| && k < |s.queues[p]| && LevelsServe(isBid, s) && BestStands(isBid, s)
    ensures BestStands(isBid, DropSide(Lifting, isBid, s, p, k))
  {
    VolumeWithout(s.queues[p], k);
  }

  lemma {:induction false} TradeKeepsStanding(isBid: bool, s: Side, p: uint32, qty: uint32)
    requires Shaped(isBid, s) && p < |s.queues| && SideAgrees(isBid, s) && BestStands(isBid, s)
    ensures BestStands(isBid, TradeSide(Lifting, isBid, s, p, qty).side)
    decreases |s.queues[p]|
  {
    hide DropSide, LevelsServe, NoVolumeBeyond;
    if qty > 0 && s.queues[p] != [] && s.queues[p][0].qty <= qty {
      DropKeepsStanding(isBid, s, p, 0);
      DropKeepsBeyond(Lifting, isBid, s, p, 0);
      TradeKeepsStanding(isBid, DropSide(Lifting, isBid, s, p, 0), p, qty - s.queues[p][0].qty);
    }
  }

  /** What the start has, every harmless operation keeps, and both directions below rest on. */
  ghost predicate InStep(d: Desk) {
    && BookAgrees(d.book) && OnceEach(d)
    && BestStands(true, d.book.bid) && BestStands(false, d.book.ask)
  }

  lemma StepKeepsOnce(rule: Rule, d: Desk, op: Op)
    requires BookShaped(d.book) && OnceEach(d)
    ensures OnceEach(Step(rule, d, op).0)
  {
    hide TallyDesk, Step;
    forall s: uint32 ensures TallyDesk(Step(rule, d, op).0, Some(s)) <= 1 {
      StepConserves(rule, d, op, Some(s));
    }
  }

  lemma StepKeepsInStep(d: Desk, op: Op)
    requires InStep(d) && Harmless(d, op)
    ensures Step(Scan, d, op) == Step(Lifting, d, op) && InStep(Step(Scan, d, op).0)
  {
    StepsAgree(d, op);
    StepKeepsOnce(Scan, d, op);
    hide OnceEach, LevelsServe, NoVolumeBeyond, DropSide, TradeSide;
    match op
    case Enqueue(isBid, price, id, qty) =>
    case Dequeue(slot) =>
      var f := Find(d.book, slot);
      if f.Some? { DropKeepsStanding(f.value.isBid, SideOf(d.book, f.value.isBid), f.value.price, f.value.k); }
    case Trade(isBid, price, qty) =>
      if price < |d.book.bid.queues| { TradeKeepsStanding(isBid, SideOf(d.book, isBid), price, qty); }
    case Clear =>
  }

  // ---- a wrapped total can be brought to light ----

  /** The total at p has wrapped; nothing else is wrong with the side. */
  ghost predicate Wrapped(isBid: bool, s: Side, p: uint32) {
    && Shaped(isBid, s) && p < |s.queues| && !(isBid && p == 0)
    && s.level[p] + TWO32 <= Volume(s.queues[p])
    && (forall t | 0 <= t < |s.queues| && t != p && !(isBid && t == 0) :: s.level[t] == Volume(s.queues[t]))
    && NoVolumeBeyond(isBid, s) && BestStands(isBid, s)
  }

  lemma WrappedBest(isBid: bool, s: Side, p: uint32)
    requires Wrapped(isBid, s, p)
    ensures s.best < |s.queues| && s.queues[s.best] != [] && (s.best == p || Beyond(isBid, s.best, p))
  {
  }

  /** Once the wrapped total of the best price is down to zero, the scan leaves a price that has volume. */
  lemma WrappedShows(isBid: bool, s: Side, p: uint32)
    requires Wrapped(isBid, s, p) && s.queues[p] != []
    ensures s.best == p && s.level[p] <= s.queues[p][0].qty ==>
      DropSide(Scan, isBid, s, p, 0).best != p == DropSide(Lifting, isBid, s, p, 0).best
  {
    if s.best == p && s.level[p] <= s.queues[p][0].qty {
      VolumeWithout(s.queues[p], 0);
      var d := Side(s.queues[p := Without(s.queues[p], 0)], s.level[p := 0], p);
      ScanMoves(isBid, d.level, p);
      assert IsBest(isBid, d.queues, p);
      BestIsUnique(isBid, d.queues, p);
    }
  }

  /** As long as cancelling the head of the best queue tells the two books nothing apart, the total stays wrapped. */
  lemma WrappedDrop(isBid: bool, s: Side, p: uint32)
    requires Wrapped(isBid, s, p) && s.best < |s.queues| && s.queues[s.best] != []
    requires s.best == p || Beyond(isBid, s.best, p)
    requires DropSide(Scan, isBid, s, s.best, 0) == DropSide(Lifting, isBid, s, s.best, 0)
    ensures Wrapped(isBid, DropSide(Lifting, isBid, s, s.best, 0), p)
  {
    VolumeWithout(s.queues[s.best], 0);
    DropKeepsBeyond(Lifting, isBid, s, s.best, 0);
    WrappedQueue(isBid, s, p);
    WrappedShows(isBid, s, p);
  }

  lemma WrappedQueue(isBid: bool, s: Side, p: uint32)
    requires Wrapped(isBid, s, p)
    ensures s.queues[p] != []
  {
  }

  ghost predicate AllCancels(ops: seq<Op>) {
    forall i | 0 <= i < |ops| :: ops[i].Dequeue?
  }

  lemma RunOfOne(rule: Rule, d: Desk, op: Op)
    requires BookShaped(d.book)
    ensures Run(rule, d, [op]).0 == Step(rule, d, op).0
  {
    hide Step, BookShaped;
    assert [op][1..] == [];
  }

  lemma RunOfCons(rule: Rule, d: Desk, op: Op, ops: seq<Op>)
    requires BookShaped(d.book)
    ensures var (next, o) := Step(rule, d, op);
      Run(rule, d, [op] + ops) == (Run(rule, next, ops).0, [o] + Run(rule, next, ops).1)
  {
    assert ([op] + ops)[0] == op && ([op] + ops)[1..] == ops;
  }

  /** After these operations the two books have different best prices on a side. */
  ghost predicate BestsDiffer(d: Desk, isBid: bool, ops: seq<Op>)
    requires BookShaped(d.book)
  {
    SideOf(Run(Scan, d, ops).0.book, isBid).best != SideOf(Run(Lifting, d, ops).0.book, isBid).best
  }

  lemma BestsDifferLater(d: Desk, isBid: bool, op: Op, ops: seq<Op>)
    requires BookShaped(d.book) && Step(Scan, d, op).0 == Step(Lifting, d, op).0
    requires BestsDiffer(Step(Scan, d, op).0, isBid, ops)
    ensures BestsDiffer(d, isBid, [op] + ops)
  {
    hide Step, Run;
    RunOfCons(Scan, d, op, ops);
    RunOfCons(Lifting, d, op, ops);
  }

  /** Cancelling heads of the best queue brings every wrapped total to light. */
  lemma {:induction false} Separate(d: Desk, isBid: bool, p: uint32) returns (cs: seq<Op>)
    requires BookShaped(d.book) && OnceEach(d) && Wrapped(isBid, SideOf(d.book, isBid), p)
    ensures AllCancels(cs) && BestsDiffer(d, isBid, cs)
    decreases TallyQueues(SideOf(d.book, isBid).queues, None)
  {
    hide Wrapped, OnceEach, DropSide, Step, Run;
    var s := SideOf(d.book, isBid);
    WrappedBest(isBid, s, p);
    var op := Dequeue(s.queues[s.best][0].slot);
    HeadCancel(Scan, d, isBid, s.best);
    HeadCancel(Lifting, d, isBid, s.best);
    DropsDifferInBest(isBid, s, s.best, 0);
    if DropSide(Scan, isBid, s, s.best, 0) != DropSide(Lifting, isBid, s, s.best, 0) {
      cs := [op];
      RunOfOne(Scan, d, op);
      RunOfOne(Lifting, d, op);
    } else {
      WrappedDrop(isBid, s, p);
      StepKeepsOnce(Scan, d, op);
      DropConserves(Lifting, isBid, s, s.best, 0, None);
      var rest := Separate(Step(Scan, d, op).0, isBid, p);
      cs := [op] + rest;
      BestsDifferLater(d, isBid, op, rest);
    }
  }

  lemma DropsDifferInBest(isBid: bool, s: Side, p: uint32, k: nat)
    requires Shaped(isBid, s) && p < |s.queues| && k < |s.queues[p]|
    ensures DropSide(Scan, isBid, s, p, k) == DropSide(Lifting, isBid, s, p, k)
      <==> DropSide(Scan, isBid, s, p, k).best == DropSide(Lifting, isBid, s, p, k).best
  {
  }

  lemma HarmWraps(d: Desk, op: Op)
    requires InStep(d) && !Harmless(d, op)
    ensures op.Enqueue? && op.price < |d.book.bid.queues|
    ensures var after := Step(Scan, d, op).0; Wrapped(op.isBid, SideOf(after.book, op.isBid), op.price)
  {
    var s := SideOf(d.book, op.isBid);
    var e := Entry(d.free[0], op.id, op.qty);
    VolumeAppend(s.queues[op.price], e);
    AddKeepsBeyond(op.isBid, s, op.price, e);
    var r := AddSide(op.isBid, s, op.price, e);
    assert forall t | 0 <= t < |s.queues| && t != op.price :: r.queues[t] == s.queues[t];
  }

  /** Both books do the same after any cancels that follow one operation, precisely when it is harmless. */
  lemma CancelsAgreeIff(d: Desk, op: Op)
    requires InStep(d)
    ensures (forall cs | AllCancels(cs) :: Run(Scan, Step(Scan, d, op).0, cs) == Run(Lifting, Step(Lifting, d, op).0,
      cs))
      <==> Harmless(d, op)
  {
    hide Run, Step, Harmless, Wrapped, AllCancels;
    StepsAgree(d, op);
    var next := Step(Scan, d, op).0;
    if Harmless(d, op) {
      forall cs | AllCancels(cs) ensures Run(Scan, next, cs) == Run(Lifting, next, cs) {
        CancelsHarmless(next, cs);
        FastRefinesSimple(next, cs);
      }
    } else {
      HarmWraps(d, op);
      StepKeepsOnce(Scan, d, op);
      var cs := Separate(next, op.isBid, op.price);
    }
  }

  lemma {:induction false} CancelsHarmless(d: Desk, cs: seq<Op>)
    requires BookShaped(d.book) && AllCancels(cs)
    ensures HarmlessRun(d, cs)
    decreases |cs|
  {
    hide Step;
    if cs != [] { CancelsHarmless(Step(Scan, d, cs[0]).0, cs[1..]); }
  }

  // ---- whole runs ----

  ghost predicate SameAfter(d: Desk, ops: seq<Op>)
    requires BookShaped(d.book)
  {
    Run(Scan, d, ops) == Run(Lifting, d, ops)
  }

  lemma {:induction false} HarmlessThenCancels(d: Desk, ops: seq<Op>, k: nat, cs: seq<Op>)
    requires BookShaped(d.book) && HarmlessRun(d, ops) && k <= |ops| && AllCancels(cs)
    ensures HarmlessRun(d, ops[..k] + cs)
    decreases k
  {
    hide Step, Harmless;
    if k == 0 {
      assert ops[..0] + cs == cs;
      CancelsHarmless(d, cs);
    } else {
      HarmlessThenCancels(Step(Scan, d, ops[0]).0, ops[1..], k - 1, cs);
      assert (ops[..k] + cs)[1..] == ops[1..][..k - 1] + cs;
    }
  }

  lemma {:induction false} HarmShows(d: Desk, ops: seq<Op>) returns (k: nat, cs: seq<Op>, isBid: bool)
    requires InStep(d) && !HarmlessRun(d, ops)
    ensures k <= |ops| && AllCancels(cs) && BestsDiffer(d, isBid, ops[..k] + cs)
    decreases |ops|
  {
    hide Run, Step, Harmless, Wrapped, AllCancels, BestsDiffer, BookAgrees, OnceEach, BestStands;
    var op := ops[0];
    InStepFacts(d);
    StepsAgree(d, op);
    if Harmless(d, op) {
      StepKeepsInStep(d, op);
      k, cs, isBid := HarmShows(Step(Scan, d, op).0, ops[1..]);
      k := k + 1;
      assert ops[..k] + cs == [op] + (ops[1..][..k - 1] + cs);
      BestsDifferLater(d, isBid, op, ops[1..][..k - 1] + cs);
    } else {
      HarmWraps(d, op);
      StepKeepsOnce(Scan, d, op);
      k, isBid := 1, op.isBid;
      cs := Separate(Step(Scan, d, op).0, isBid, op.price);
      assert ops[..1] + cs == [op] + cs;
      BestsDifferLater(d, isBid, op, cs);
    }
  }

  lemma InStepFacts(d: Desk)
    requires InStep(d)
    ensures BookAgrees(d.book) && BookShaped(d.book) && OnceEach(d)
  {
  }

  /**
   * The two books agree on every part of a run and on any cancels after it, in states, handles and fills,
   * precisely when no accepted add takes its total past 32 bits anywhere but at bid price 0.
   */
  lemma BooksAgreeIff(d: Desk, ops: seq<Op>)
    requires InStep(d)
    ensures (forall k, cs | 0 <= k <= |ops| && AllCancels(cs) :: SameAfter(d, ops[..k] + cs)) <==> HarmlessRun(d, ops)
  {
    hide Run, Step, HarmlessRun, AllCancels, OnceEach, BestStands;
    if HarmlessRun(d, ops) {
      forall k, cs | 0 <= k <= |ops| && AllCancels(cs) ensures SameAfter(d, ops[..k] + cs) {
        HarmlessThenCancels(d, ops, k, cs);
        FastRefinesSimple(d, ops[..k] + cs);
      }
    } else {
      var k, cs, isBid := HarmShows(d, ops);
      assert !SameAfter(d, ops[..k] + cs);
    }
  }

  lemma {:induction false} TallyDistinct(free: seq<uint32>, s: uint32)
    requires Distinct(free)
    ensures Tally(free, Some(s)) == if s in free then 1 else 0
    decreases |free|
  {
    if free != [] {
      TallyDistinct(free[1..], s);
      assert free == [free[0]] + free[1..];
    }
  }

  /** An empty book with a freelist without repetition is where such runs start. */
  lemma StartIsInStep(levels: nat, free: seq<uint32>)
    requires 1 <= levels < 0x8000_0000 && Distinct(free)
    ensures InStep(Desk(EmptyBook(levels), free))
  {
    var d := Desk(EmptyBook(levels), free);
    EmptyAgrees(levels);
    forall s: uint32 ensures TallyDesk(d, Some(s)) <= 1 {
      TallyDistinct(free, s);
      NoQueues(levels, Some(s));
    }
  }
}
