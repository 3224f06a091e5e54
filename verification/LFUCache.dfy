/** The cache of books: a fixed set of books sharing one order pool, handed out by the directory. */
module BookCache {
  import opened Machine
  import opened Pool
  import opened BookSpec
  import opened QueueLinks
  import opened Locating
  import opened BitBook
  import opened LfuDirectories
  import LfuSpec

  class LFUCache {
    const pool: OrderPool
    const dir: LFUDirectory
    const levels: uint32
    const books: seq<MBOBookWithBIT>

    /** The memory of each book, and of all of them. */
    ghost const reprs: seq<set<object>>
    ghost const memory: set<object>

    /** Which pool, which tags, and that no two parts of the cache share memory. */
    ghost predicate Wired() {
      && |books| == |reprs| == dir.capacity
      && (forall i | 0 <= i < |books| :: books[i].Footprint() == reprs[i] && reprs[i] <= memory)
      && (forall i | 0 <= i < |books| ::
            books[i].Wired() && books[i].pool == pool && books[i].levels == levels && books[i].tag == i)
      && (forall i, j | 0 <= i < |reprs| && 0 <= j < |reprs| && i != j :: reprs[i] !! reprs[j])
      && memory !! dir.Footprint() && memory !! pool.Footprint() && dir.Footprint() !! pool.Footprint()
    }

    ghost predicate BooksLinked(orders: seq<Order>, owner: seq<nat>)
      requires Wired()
      reads memory
    {
      forall i | 0 <= i < |books| :: books[i].Own() && books[i].LinkedTo(orders, owner)
    }

    /** Every resting order belongs to one of the books. */
    ghost predicate OwnersKnown()
      reads pool, pool.orders
    {
      |pool.owner| == pool.orders.Length &&
      forall s | 0 <= s < pool.orders.Length :: pool.orders[s].active ==> pool.owner[s] < |books|
    }

    /** The books and the pool are in order, whoever is cached. */
    ghost predicate Ready()
      reads memory, pool.Footprint()
    {
      pool.Valid() && Wired() && BooksLinked(pool.orders[..], pool.owner) && OwnersKnown()
    }

    ghost function Books(): (r: seq<Book>)
      requires Wired()
      reads memory
      ensures |r| == |books|
    {
      seq(|books|, i requires 0 <= i < |books| reads memory => books[i].Abs())
    }

    ghost predicate Valid()
      reads memory, pool.Footprint(), dir.Footprint()
    {
      Ready() && dir.Valid()
    }

    /** A cache over a pool in which nothing is allocated. */
    constructor (orderPool: OrderPool, priceLevels: uint32, slots: uint32, symbols: uint32, frequencies: uint32)
      requires orderPool.Valid() && forall s | 0 <= s < orderPool.capacity :: !orderPool.orders[s].active
      requires 1 <= priceLevels < 0x8000_0000
      requires 1 <= symbols <= 0x1_0000 && 1 <= slots < NULL_IDX && 2 <= frequencies < NULL_IDX
      ensures Valid() && pool == orderPool && levels == priceLevels
      ensures dir.capacity == slots && dir.maxSymbols == symbols && dir.maxFrequency == frequencies
      ensures dir.dir == LfuSpec.EmptyDirectory() && Books() == seq(slots, _ => EmptyBook(priceLevels))
      ensures fresh(memory) && fresh(dir.Footprint())
    {
      hide FreelistOk, EmptyBook, LFUDirectory.Valid;
      hide MBOBookWithBIT.Valid, MBOBookWithBIT.Own, MBOBookWithBIT.LinkedTo;
      hide MBOBookWithBIT.Footprint, MBOBookWithBIT.Abs;
      pool, levels := orderPool, priceLevels;
      var bs: seq<MBOBookWithBIT>;
      ghost var rs, all;
      bs, rs, all := MakeBooks(orderPool, priceLevels, slots);
      books, reprs := bs, rs;
      memory := all;
      dir := new LFUDirectory(symbols, slots, frequencies);
      new;
      assert Wired();
      hide MBOBookWithBIT.Wired, LFUCache.Wired;
      assert Books() == seq(slots, _ => EmptyBook(priceLevels));
      assert BooksLinked(pool.orders[..], pool.owner);
      assert OwnersKnown();
    }

    static method MakeBooks(orderPool: OrderPool, priceLevels: uint32, slots: uint32)
      returns (bs: seq<MBOBookWithBIT>, ghost rs: seq<set<object>>, ghost all: set<object>)
      requires orderPool.Valid() && forall s | 0 <= s < orderPool.capacity :: !orderPool.orders[s].active
      requires 1 <= priceLevels < 0x8000_0000
      ensures |bs| == |rs| == slots && forall j | 0 <= j < slots :: bs[j].Footprint() == rs[j]
      ensures forall j | 0 <= j < slots ::
        bs[j].Wired() && bs[j].pool == orderPool && bs[j].levels == priceLevels && bs[j].tag == j
      ensures forall j | 0 <= j < slots :: bs[j].Own() && bs[j].LinkedTo(orderPool.orders[..], orderPool.owner)
      ensures forall j | 0 <= j < slots :: bs[j].Abs() == EmptyBook(priceLevels) && rs[j] <= all
      ensures fresh(all) && all !! orderPool.Footprint()
      ensures forall j, k | 0 <= j < slots && 0 <= k < slots && j != k :: rs[j] !! rs[k]
    {
      hide FreelistOk, EmptyBook, MBOBookWithBIT.Wired;
      hide MBOBookWithBIT.Valid, MBOBookWithBIT.Own, MBOBookWithBIT.LinkedTo;
      hide MBOBookWithBIT.Footprint, MBOBookWithBIT.Abs;
      bs, rs, all := [], [], {};
      for i := 0 to slots
        invariant |bs| == |rs| == i && forall j | 0 <= j < i :: bs[j].Footprint() == rs[j]
        invariant forall j | 0 <= j < i ::
          bs[j].Wired() && bs[j].pool == orderPool && bs[j].levels == priceLevels && bs[j].tag == j
        invariant forall j | 0 <= j < i :: bs[j].Own() && bs[j].LinkedTo(orderPool.orders[..], orderPool.owner)
        invariant forall j | 0 <= j < i :: bs[j].Abs() == EmptyBook(priceLevels) && rs[j] <= all
        invariant fresh(all) && all !! orderPool.Footprint()
        invariant forall j, k | 0 <= j < i && 0 <= k < i && j != k :: rs[j] !! rs[k]
      {
        var b := new MBOBookWithBIT(orderPool, priceLevels, i);
        b.ValidByParts();
        bs := bs + [b];
        rs := rs + [b.Footprint()];
        all := all + b.Footprint();
      }
    }

    /** Clears the book in a slot and sets it up anew; the other books and their orders stay as they are. */
    method Reclaim(slot: uint32)
      requires Ready() && slot < |books|
      modifies reprs[slot], pool.Footprint()
      ensures Ready() && Books() == old(Books())[slot := EmptyBook(levels)]
      ensures BookShaped(old(Books())[slot])
      ensures pool.free == Release(old(pool.free), ClearOrder(old(Books())[slot], 0))
    {
      hide BookFrame, FreelistOk, ClearOrder, EmptyBook;
      hide MBOBookWithBIT.Valid, MBOBookWithBIT.Own, MBOBookWithBIT.LinkedTo;
      hide MBOBookWithBIT.Footprint, MBOBookWithBIT.Abs;
      var book := books[slot];
      ghost var o0, w0 := pool.orders[..], pool.owner;
      book.ValidByParts();
      book.Clear();
      book.Init();
      book.ValidByParts();
      forall i | 0 <= i < |books| && i != slot as int
        ensures books[i].Own() && books[i].LinkedTo(pool.orders[..], pool.owner)
        ensures books[i].Abs() == old(books[i].Abs())
      {
        assert reprs[i] !! reprs[slot] && reprs[i] <= memory;
        assert old(books[i].Own()) && old(books[i].LinkedTo(o0, w0));
        assert books[i].Own() && books[i].LinkedTo(o0, w0) && books[i].Abs() == old(books[i].Abs());
        books[i].StaysLinked(o0, w0, pool.orders[..], pool.owner, slot);
      }
      OwnersStay(o0, w0, pool.orders[..], pool.owner, slot);
    }

    lemma OwnersStay(o0: seq<Order>, w0: seq<nat>, o1: seq<Order>, w1: seq<nat>, k: nat)
      requires BookFrame(o0, w0, o1, w1, k) && k < |books|
      requires forall s | 0 <= s < |o0| :: o0[s].active ==> w0[s] < |books|
      ensures forall s | 0 <= s < |o1| :: o1[s].active ==> w1[s] < |books|
    {
    }

    /**
     * The book of an id, or null for an id out of range. A miss hands out a cleared book, whose orders have
     * gone back to the pool.
     */
    method Access(bookId: uint16, symbol: seq<uint8>)
      returns (book: MBOBookWithBIT?, ghost slot: nat, ghost how: LfuSpec.Admission)
      requires Valid()
      modifies memory, pool.Footprint(), dir.Footprint()
      ensures Valid()
      ensures bookId >= dir.maxSymbols ==>
        book == null && dir.dir == old(dir.dir) && Books() == old(Books()) && pool.free == old(pool.free)
      ensures bookId < dir.maxSymbols ==>
        && slot < |books| && book == books[slot]
        && (dir.dir, slot, how) == LfuSpec.Access(dir.capacity, dir.maxFrequency, old(dir.dir), bookId, symbol)
        && (if how.Hit? then Books() == old(Books()) && pool.free == old(pool.free)
            else && Books() == old(Books())[slot := EmptyBook(levels)] && BookShaped(old(Books())[slot])
                 && pool.free == Release(old(pool.free), ClearOrder(old(Books())[slot], 0)))
    {
      hide Ready, LFUDirectory.Valid, ClearOrder, EmptyBook, LfuSpec.Access;
      ReadyParts();
      if bookId >= dir.maxSymbols {
        slot, how := 0, LfuSpec.Hit;
        return null, slot, how;
      }
      var s, miss, h := dir.Access(bookId, symbol);
      slot, how := s, h;
      assert Ready() && Books() == old(Books());
      if miss {
        Reclaim(s);
      }
      book := books[s];
    }

    lemma SlotsOfOneBook(i: nat, s: uint32)
      requires Ready() && i < |books| && s < pool.capacity
      ensures Rests(Books()[i], s) <==> pool.orders[s].active && pool.owner[s] == i
      ensures RecordsTell(pool.orders[..], Books()[i], s)
      ensures forall l, l' | At(Books()[i], l, s) && At(Books()[i], l', s) :: l == l'
    {
      hide MBOBookWithBIT.Own, MBOBookWithBIT.LinkedTo, MBOBookWithBIT.Abs, MBOBookWithBIT.Wired, At, RecordsTell;
      assert Books()[i] == books[i].Abs() && books[i].tag == i;
      assert |pool.orders[..]| == pool.capacity;
      books[i].Places(pool.orders[..], pool.owner, s);
    }

    /**
     * Every slot of the pool is in exactly one place: on the freelist when it is inactive; otherwise in one
     * queue, of the book that owns it, on the side and at the price that its own record says.
     */
    lemma SlotsPartitioned(s: uint32)
      requires Ready() && s < pool.capacity
      ensures |Books()| == |books| && pool.orders[s].active == (s !in pool.free)
      ensures pool.orders[s].active ==> pool.owner[s] < |books|
      ensures forall i | 0 <= i < |books| ::
        Rests(Books()[i], s) <==> pool.orders[s].active && pool.owner[s] == i
      ensures forall i | 0 <= i < |books| :: RecordsTell(pool.orders[..], Books()[i], s)
      ensures forall i, l, l' | 0 <= i < |books| && At(Books()[i], l, s) && At(Books()[i], l', s) :: l == l'
    {
      hide MBOBookWithBIT.Own, MBOBookWithBIT.LinkedTo, MBOBookWithBIT.Abs, MBOBookWithBIT.Wired;
      hide At, Rests, RecordsTell;
      forall i | 0 <= i < |books|
        ensures Rests(Books()[i], s) <==> pool.orders[s].active && pool.owner[s] == i
        ensures RecordsTell(pool.orders[..], Books()[i], s)
        ensures forall l, l' | At(Books()[i], l, s) && At(Books()[i], l', s) :: l == l'
      {
        SlotsOfOneBook(i, s);
      }
    }

    /** The book of a cached id, without counting an access; null when it is not cached. */
    method Peek(bookId: uint16) returns (book: MBOBookWithBIT?)
      requires Valid()
      ensures book != null <==> (bookId as int) in dir.dir.slotOf
      ensures book != null ==> dir.dir.slotOf[bookId] < |books| && book == books[dir.dir.slotOf[bookId]]
    {
      hide Ready, LFUDirectory.Valid;
      ReadyParts();
      var slot := dir.SlotOf(bookId);
      book := if slot == NULL_IDX then null else books[slot];
    }

    lemma ValidParts()
      ensures Valid() <==> Ready() && dir.Valid()
      ensures Ready() ==> |reprs| == |books| && forall i | 0 <= i < |reprs| :: reprs[i] <= memory
    {
    }

    lemma ReadyParts()
      requires Ready()
      ensures Wired() && |books| == dir.capacity
      ensures memory !! dir.Footprint() && dir.Footprint() !! pool.Footprint()
    {
    }
  }
}
