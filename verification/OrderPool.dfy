/** Finite sequences without repetition. */
module Distinctness {
  ghost predicate Distinct<T(!new)>(s: seq<T>) {
    forall i, j | 0 <= i < j < |s| :: s[i] != s[j]
  }

  function Without<T>(s: seq<T>, k: nat): (r: seq<T>)
    requires k < |s|
  {
    s[..k] + s[k + 1..]
  }

  lemma {:induction false} Pigeonhole(s: seq<int>, n: nat)
    requires Distinct(s) && forall i | 0 <= i < |s| :: 0 <= s[i] < n
    ensures |s| <= n
    decreases n
  {
    if s != [] {
      var first := s[0];
      if k :| 0 <= k < |s| && s[k] == n - 1 {
        Pigeonhole(Without(s, k), n - 1);
      } else {
        Pigeonhole(s, n - 1);
      }
    }
  }
}

/** The shared array of orders with its intrusive freelist. */
module Pool {
  import opened Machine
  import opened Distinctness

  datatype Order = Order(
    orderId: uint64, qty: uint32, prev: uint32, next: uint32, price: uint32, isBid: bool, active: bool)

  function NextFree(free: seq<uint32>, k: nat): (r: uint32) {
    if k + 1 < |free| then free[k + 1] else NULL_IDX
  }

  predicate LinkedOn(orders: seq<Order>, free: seq<uint32>, k: nat) {
    k < |free| && free[k] < |orders| && orders[free[k]].next == NextFree(free, k)
  }

  /** `next` links the inactive slots into the freelist; every other slot is active. */
  ghost predicate FreelistOk(orders: seq<Order>, freeHead: uint32, free: seq<uint32>) {
    && freeHead == (if free == [] then NULL_IDX else free[0])
    && Distinct(free)
    && (forall k | 0 <= k < |free| :: free[k] < |orders|)
    && (forall k | 0 <= k < |free| :: LinkedOn(orders, free, k))
    && (forall s: uint32 | s < |orders| :: orders[s].active == (s !in free))
  }

  /** The freelist after releasing slots one after the other. */
  function Release(free: seq<uint32>, released: seq<uint32>): (r: seq<uint32>)
    decreases |released|
  {
    if released == [] then free else Release([released[0]] + free, released[1..])
  }

  lemma {:induction false} ReleaseConcat(free: seq<uint32>, a: seq<uint32>, b: seq<uint32>)
    ensures Release(free, a + b) == Release(Release(free, a), b)
    decreases |a|
  {
    if a == [] {
      assert a + b == b;
    } else {
      assert (a + b)[1..] == a[1..] + b;
      ReleaseConcat([a[0]] + free, a[1..], b);
    }
  }

  lemma {:induction false} ReleaseSlots(free: seq<uint32>, released: seq<uint32>)
    ensures multiset(Release(free, released)) == multiset(free) + multiset(released)
    decreases |released|
  {
    if released != [] {
      ReleaseSlots([released[0]] + free, released[1..]);
      assert released == [released[0]] + released[1..];
    }
  }

  lemma FreelistBound(orders: seq<Order>, freeHead: uint32, free: seq<uint32>, s: uint32)
    requires FreelistOk(orders, freeHead, free) && s < |orders| && s !in free
    ensures |free| < |orders|
  {
    Pigeonhole(free + [s], |orders|);
  }

  lemma InCons(x: uint32, s: seq<uint32>, t: uint32)
    ensures t in [x] + s <==> t == x || t in s
  {
  }

  lemma DistinctCons(x: uint32, s: seq<uint32>)
    requires Distinct(s) && x !in s
    ensures Distinct([x] + s)
  {
  }

  lemma AllocKeepsFreelist(orders: seq<Order>, freeHead: uint32, free: seq<uint32>, o: Order)
    requires FreelistOk(orders, freeHead, free) && free != [] && o.active
    ensures free[0] < |orders| && freeHead == free[0]
    ensures FreelistOk(orders[free[0] := o], orders[free[0]].next, free[1..])
  {
    var after, rest := orders[free[0] := o], free[1..];
    assert LinkedOn(orders, free, 0);
    forall k | 0 <= k < |rest| ensures LinkedOn(after, rest, k) {
      assert LinkedOn(orders, free, k + 1) && rest[k] == free[k + 1] != free[0];
      assert NextFree(rest, k) == NextFree(free, k + 1);
    }
    forall s: uint32 | s < |after| ensures after[s].active == (s !in rest) {
      InCons(free[0], rest, s);
      assert free == [free[0]] + rest;
    }
  }

  lemma FreeKeepsFreelist(orders: seq<Order>, freeHead: uint32, free: seq<uint32>, s: uint32, o: Order)
    requires FreelistOk(orders, freeHead, free) && s < |orders| && orders[s].active
    requires !o.active && o.next == freeHead
    ensures FreelistOk(orders[s := o], s, [s] + free)
  {
    var after, more := orders[s := o], [s] + free;
    assert free != [] ==> more[1] == free[0];
    forall k | 0 <= k < |more| ensures LinkedOn(after, more, k) {
      if k > 0 {
        assert LinkedOn(orders, free, k - 1) && more[k] == free[k - 1] != s;
        assert NextFree(more, k) == NextFree(free, k - 1);
      }
    }
    DistinctCons(s, free);
    forall t: uint32 | t < |after| ensures after[t].active == (t !in more) {
      InCons(s, free, t);
    }
  }

  lemma WriteKeepsFreelist(orders: seq<Order>, freeHead: uint32, free: seq<uint32>, s: uint32, o: Order)
    requires FreelistOk(orders, freeHead, free) && s < |orders| && orders[s].active && o.active
    ensures FreelistOk(orders[s := o], freeHead, free)
  {
    var after := orders[s := o];
    forall k | 0 <= k < |free| ensures LinkedOn(after, free, k) {
      assert LinkedOn(orders, free, k) && free[k] != s;
    }
  }

  class OrderPool {
    const capacity: uint32
    const orders: array<Order>
    var freeHead: uint32
    var activeCount: uint32

    /** The freelist in order, and for each slot the book that allocated it last. */
    ghost var free: seq<uint32>
    ghost var owner: seq<nat>

    ghost predicate Valid()
      reads this, orders
    {
      && 1 <= capacity <= 0x8000_0000
      && orders.Length == |owner| == capacity
      && FreelistOk(orders[..], freeHead, free)
      && activeCount == capacity - |free|
    }

    ghost function Footprint(): set<object> {
      {this, orders}
    }

    constructor (size: uint32)
      requires 1 <= size <= 0x8000_0000
      ensures Valid() && capacity == size && fresh(orders)
      ensures free == seq(size, i requires 0 <= i < size => i) && forall s | 0 <= s < size :: !orders[s].active
    {
      var blank := Order(0, 0, 0, NULL_IDX, 0, false, false);
      capacity := size;
      orders := new Order[size](_ => blank);
      freeHead := 0;
      activeCount := 0;
      free := seq(size, i requires 0 <= i < size => i);
      owner := seq(size, _ => 0);
      new;
      for i := 0 to size - 1
        modifies orders
        invariant forall j: nat | j < size :: orders[j] == blank.(next := if j < i then j + 1 else NULL_IDX)
      {
        orders[i] := orders[i].(next := i + 1, active := false);
      }
      orders[size - 1] := orders[size - 1].(next := NULL_IDX, active := false);
      forall s: uint32 | s < size ensures s in free {
        assert free[s] == s;
      }
    }

    /** Takes the head of the freelist for the book named by tag; NULL_IDX when it is empty. */
    method Alloc(ghost tag: nat) returns (idx: uint32)
      requires Valid()
      modifies this, orders
      ensures Valid()
      ensures old(free) == [] ==>
        idx == NULL_IDX && free == [] && orders[..] == old(orders[..]) && owner == old(owner)
      ensures old(free) != [] ==>
        && idx == old(free)[0] && free == old(free)[1..] && idx < capacity
        && !old(orders[idx]).active
        && orders[..] == old(orders[..])[idx := old(orders[idx]).(active := true, prev := NULL_IDX, next := NULL_IDX)]
        && owner == old(owner)[idx := tag]
    {
      assert free != [] ==> free[0] < capacity;
      if freeHead == NULL_IDX { return NULL_IDX; }
      idx := freeHead;
      AllocKeepsFreelist(orders[..], freeHead, free,
        orders[idx].(active := true, prev := NULL_IDX, next := NULL_IDX));
      freeHead := orders[idx].next;
      orders[idx] := orders[idx].(active := true, prev := NULL_IDX, next := NULL_IDX);
      activeCount := activeCount + 1;
      free := free[1..];
      owner := owner[idx := tag];
    }

    /** Puts an active slot at the head of the freelist; anything else is ignored. */
    method Free(idx: uint32)
      requires Valid()
      modifies this, orders
      ensures Valid() && owner == old(owner)
      ensures idx >= capacity || !old(orders[idx]).active ==>
        free == old(free) && orders[..] == old(orders[..])
      ensures idx < capacity && old(orders[idx]).active ==>
        && free == [idx] + old(free)
        && orders[..] == old(orders[..])[idx := old(orders[idx]).(active := false, next := old(freeHead))]
    {
      if idx >= capacity || !orders[idx].active { return; }
      FreelistBound(orders[..], freeHead, free, idx);
      FreeKeepsFreelist(orders[..], freeHead, free, idx, orders[idx].(active := false, next := freeHead));
      orders[idx] := orders[idx].(active := false);
      orders[idx] := orders[idx].(next := freeHead);
      assert orders[..] == old(orders[..])[idx := old(orders[idx]).(active := false, next := old(freeHead))];
      freeHead := idx;
      activeCount := activeCount - 1;
      free := [idx] + free;
    }

    /** Writes an order in place, as through the reference that operator[] returns. */
    method Put(idx: uint32, o: Order)
      requires Valid() && idx < capacity && orders[idx].active && o.active
      modifies orders
      ensures Valid() && orders[..] == old(orders[..])[idx := o]
    {
      WriteKeepsFreelist(orders[..], freeHead, free, idx, o);
      orders[idx] := o;
    }
  }
}
