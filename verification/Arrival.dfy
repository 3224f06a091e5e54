/** Price-time priority: queues stay in the order in which their orders arrived. */
module ArrivalOrder {
  import opened Machine
  import opened Distinctness
  import opened BookSpec
  import opened BookTheorems

  /** An order as it arrived; its quantity may shrink later. */
  datatype Key = Key(slot: uint32, id: uint64)

  function Keys(q: Queue): (r: seq<Key>)
    ensures |r| == |q|
  {
    seq(|q|, k requires 0 <= k < |q| => Key(q[k].slot, q[k].id))
  }

  /** a is b with some elements left out. */
  predicate Subseq(a: seq<Key>, b: seq<Key>)
    decreases |b|
  {
    a == [] || (b != [] && ((a[0] == b[0] && Subseq(a[1..], b[1..])) || Subseq(a, b[1..])))
  }

  lemma {:induction false} SubseqSelf(a: seq<Key>)
    ensures Subseq(a, a)
    decreases |a|
  {
    if a != [] { SubseqSelf(a[1..]); }
  }

  lemma {:induction false} SubseqSuffix(a: seq<Key>, k: nat)
    requires k <= |a|
    ensures Subseq(a[k..], a)
    decreases |a|
  {
    if k == 0 {
      SubseqSelf(a);
      assert a[0..] == a;
    } else {
      SubseqSuffix(a[1..], k - 1);
      assert a[1..][k - 1..] == a[k..];
    }
  }

  lemma {:induction false} SubseqWithout(a: seq<Key>, k: nat)
    requires k < |a|
    ensures Subseq(Without(a, k), a)
    decreases |a|
  {
    var w := Without(a, k);
    if k == 0 {
      assert w == a[1..];
      SubseqSelf(a[1..]);
    } else {
      SubseqWithout(a[1..], k - 1);
      assert w[1..] == Without(a[1..], k - 1) && w[0] == a[0];
    }
  }

  lemma {:induction false} SubseqBefore(a: seq<Key>, b: seq<Key>, c: seq<Key>)
    requires Subseq(a, b)
    ensures Subseq(a + c, b + c)
    decreases |b|
  {
    if b == [] {
      SubseqSelf(c);
      assert a + c == c && b + c == c;
    } else {
      assert (b + c)[1..] == b[1..] + c;
      if a == [] {
        SubseqBefore(a, b[1..], c);
        assert a + c == c;
      } else if Subseq(a, b[1..]) {
        SubseqBefore(a, b[1..], c);
      } else {
        SubseqBefore(a[1..], b[1..], c);
        assert (a + c)[1..] == a[1..] + c;
      }
    }
  }

  lemma {:induction false} SubseqTrans(a: seq<Key>, b: seq<Key>, c: seq<Key>)
    requires Subseq(a, b) && Subseq(b, c)
    ensures Subseq(a, c)
    decreases |c|
  {
    if a != [] {
      if b != [] && Subseq(b, c[1..]) {
        SubseqTrans(a, b, c[1..]);
      } else if Subseq(a, b[1..]) {
        SubseqTrans(a, b[1..], c[1..]);
      } else {
        SubseqTrans(a[1..], b[1..], c[1..]);
      }
    }
  }

  // ---- one operation ----

  /** The order that an operation places at a price of a side, if any. */
  function Arriving(d: Desk, op: Op, isBid: bool, p: uint32): (r: seq<Key>)
    requires BookShaped(d.book)
  {
    if op.Enqueue? && op.isBid == isBid && op.price == p && p < |d.book.bid.queues| && d.free != []
    then [Key(d.free[0], op.id)] else []
  }

  lemma TradeLeavesSuffix(rule: Rule, isBid: bool, s: Side, p: uint32, qty: uint32, t: nat)
    requires Shaped(isBid, s) && p < |s.queues| && t < |s.queues|
    ensures Subseq(Keys(TradeSide(rule, isBid, s, p, qty).side.queues[t]), Keys(s.queues[t]))
  {
    hide TradeSide, Subseq;
    var n := TradeIsFifo(rule, isBid, s, p, qty);
    var q, rest := s.queues[t], TradeSide(rule, isBid, s, p, qty).side.queues[t];
    if t == p {
      assert Keys(rest) == Keys(q)[n..];
      SubseqSuffix(Keys(q), n);
    } else {
      SubseqSelf(Keys(q));
    }
  }

  lemma StepKeepsArrival(rule: Rule, d: Desk, op: Op, isBid: bool, p: uint32)
    requires BookShaped(d.book) && p < |d.book.bid.queues|
    ensures Subseq(Keys(SideOf(Step(rule, d, op).0.book, isBid).queues[p]),
                   Keys(SideOf(d.book, isBid).queues[p]) + Arriving(d, op, isBid, p))
  {
    hide Subseq, TradeSide, DropSide;
    var q, after := SideOf(d.book, isBid).queues[p], SideOf(Step(rule, d, op).0.book, isBid).queues[p];
    SubseqSelf(Keys(q));
    assert Keys(q) + [] == Keys(q);
    match op
    case Enqueue(side, price, id, qty) =>
      assert Keys(after) == Keys(q) + Arriving(d, op, isBid, p);
      SubseqSelf(Keys(after));
    case Dequeue(slot) =>
      var f := Find(d.book, slot);
      if f.Some? && f.value.isBid == isBid && f.value.price == p {
        assert Keys(after) == Without(Keys(q), f.value.k);
        SubseqWithout(Keys(q), f.value.k);
      }
    case Trade(side, price, qty) =>
      if side == isBid && price < |d.book.bid.queues| {
        TradeLeavesSuffix(rule, isBid, SideOf(d.book, isBid), price, qty, p);
      }
    case Clear =>
      NothingIsSubseq(Keys(q));
  }

  lemma NothingIsSubseq(b: seq<Key>)
    ensures Subseq([], b)
  {
  }

  // ---- whole runs ----

  /** The orders a run places at a price of a side, in the order of the operations that placed them. */
  ghost function Arrived(rule: Rule, d: Desk, ops: seq<Op>, isBid: bool, p: uint32): (r: seq<Key>)
    requires BookShaped(d.book)
    decreases |ops|
  {
    if ops == [] then []
    else Arriving(d, ops[0], isBid, p) + Arrived(rule, Step(rule, d, ops[0]).0, ops[1..], isBid, p)
  }

  /**
   * Over every run, whatever ids the adds carry, each queue is what it was at first followed by the orders
   * placed there since, in order of arrival, with some of them gone.
   */
  lemma {:induction false} QueuesAreArrivals(rule: Rule, d: Desk, ops: seq<Op>, isBid: bool, p: uint32)
    requires BookShaped(d.book) && p < |d.book.bid.queues|
    ensures Subseq(Keys(SideOf(Run(rule, d, ops).0.book, isBid).queues[p]),
                   Keys(SideOf(d.book, isBid).queues[p]) + Arrived(rule, d, ops, isBid, p))
    decreases |ops|
  {
    hide Subseq, Step, Keys;
    var before := Keys(SideOf(d.book, isBid).queues[p]);
    if ops == [] {
      SubseqSelf(before);
      assert before + [] == before;
    } else {
      var next := Step(rule, d, ops[0]).0;
      var first, later := Arriving(d, ops[0], isBid, p), Arrived(rule, next, ops[1..], isBid, p);
      StepKeepsArrival(rule, d, ops[0], isBid, p);
      SubseqBefore(Keys(SideOf(next.book, isBid).queues[p]), before + first, later);
      QueuesAreArrivals(rule, next, ops[1..], isBid, p);
      assert before + (first + later) == (before + first) + later;
      SubseqTrans(Keys(SideOf(Run(rule, d, ops).0.book, isBid).queues[p]),
                  Keys(SideOf(next.book, isBid).queues[p]) + later, (before + first) + later);
    }
  }

  // ---- numbered adds ----

  /** In the order of their ids, all of which are below a bound. */
  ghost predicate Ascending(a: seq<Key>, bound: nat) {
    && (forall i, j | 0 <= i < j < |a| :: a[i].id < a[j].id)
    && (forall i | 0 <= i < |a| :: a[i].id < bound)
  }

  lemma {:induction false} SubseqIn(a: seq<Key>, b: seq<Key>, i: nat)
    requires Subseq(a, b) && i < |a|
    ensures a[i] in b
    decreases |b|
  {
    if Subseq(a, b[1..]) {
      SubseqIn(a, b[1..], i);
    } else if i > 0 {
      SubseqIn(a[1..], b[1..], i - 1);
    }
  }

  lemma {:induction false} SubseqAscending(a: seq<Key>, b: seq<Key>, bound: nat)
    requires Subseq(a, b) && Ascending(b, bound)
    ensures Ascending(a, bound)
    decreases |b|
  {
    if a != [] {
      if Subseq(a, b[1..]) {
        SubseqAscending(a, b[1..], bound);
      } else {
        SubseqAscending(a[1..], b[1..], bound);
        forall j | 1 <= j < |a| ensures a[0].id < a[j].id {
          SubseqIn(a[1..], b[1..], j - 1);
        }
        assert forall j | 1 <= j < |a| :: a[j] == a[1..][j - 1];
      }
    }
  }

  lemma {:induction false} ArrivedAscending(rule: Rule, d: Desk, ops: seq<Op>, start: nat, isBid: bool, p: uint32)
    requires BookShaped(d.book)
    requires forall i | 0 <= i < |ops| && ops[i].Enqueue? :: ops[i].id == start + i
    ensures var a := Arrived(rule, d, ops, isBid, p);
      Ascending(a, start + |ops|) && forall i | 0 <= i < |a| :: start <= a[i].id
    decreases |ops|
  {
    hide Step;
    if ops != [] {
      ArrivedAscending(rule, Step(rule, d, ops[0]).0, ops[1..], start + 1, isBid, p);
    }
  }

  /** When each add carries the number of its operation, every queue stays sorted by number. */
  lemma QueuesKeepArrivalOrder(rule: Rule, d: Desk, ops: seq<Op>, start: nat, isBid: bool, p: uint32)
    requires BookShaped(d.book) && p < |d.book.bid.queues|
    requires Ascending(Keys(SideOf(d.book, isBid).queues[p]), start)
    requires forall i | 0 <= i < |ops| && ops[i].Enqueue? :: ops[i].id == start + i
    ensures Ascending(Keys(SideOf(Run(rule, d, ops).0.book, isBid).queues[p]), start + |ops|)
  {
    hide Run, Subseq, Arrived, Keys;
    var before, arrived := Keys(SideOf(d.book, isBid).queues[p]), Arrived(rule, d, ops, isBid, p);
    QueuesAreArrivals(rule, d, ops, isBid, p);
    ArrivedAscending(rule, d, ops, start, isBid, p);
    assert Ascending(before + arrived, start + |ops|);
    SubseqAscending(Keys(SideOf(Run(rule, d, ops).0.book, isBid).queues[p]), before + arrived, start + |ops|);
  }
}
