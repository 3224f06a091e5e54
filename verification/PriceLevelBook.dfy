/** The book of totals only: no orders, just a quantity per price and the best prices. */
module TotalsBook {
  import opened Machine
  import opened BookSpec

  datatype Totals = Totals(qty: seq<uint32>, best: uint32)

  predicate TotalsShaped(isBid: bool, t: Totals) {
    1 <= |t.qty| < 0x8000_0000 && (t.best < |t.qty| || t.best == NoBest(isBid))
  }

  function AddTotals(isBid: bool, t: Totals, p: uint32, qty: uint32): Totals
    requires p < |t.qty|
  {
    Totals(t.qty[p := (t.qty[p] + qty) % TWO32], if Beyond(isBid, p, t.best) then p else t.best)
  }

  /** Saturating subtraction at one price, and a scan when that leaves the best price empty. */
  function TradeTotals(isBid: bool, t: Totals, p: uint32, qty: uint32): Totals
    requires TotalsShaped(isBid, t) && p < |t.qty|
  {
    var left := if t.qty[p] >= qty then t.qty[p] - qty else 0;
    var after := t.qty[p := left];
    Totals(after, if p == t.best && left == 0 then ScanBest(isBid, after, t.best) else t.best)
  }

  class PriceLevelBook {
    const levels: uint32
    const bidQty: array<uint32>
    const askQty: array<uint32>
    var bestBid: uint32
    var bestAsk: uint32

    ghost function Bids(): Totals
      reads this, bidQty
    {
      Totals(bidQty[..], bestBid)
    }

    ghost function Asks(): Totals
      reads this, askQty
    {
      Totals(askQty[..], bestAsk)
    }

    ghost predicate Valid()
      reads this, bidQty, askQty
    {
      && bidQty != askQty && bidQty.Length == askQty.Length == levels
      && TotalsShaped(true, Bids()) && TotalsShaped(false, Asks())
    }

    constructor (size: uint32)
      requires 1 <= size < 0x8000_0000
      ensures Valid() && levels == size
      ensures Bids() == Totals(EmptySide(true, size).level, NoBest(true))
      ensures Asks() == Totals(EmptySide(false, size).level, NoBest(false))
    {
      levels := size;
      bidQty := new uint32[size](_ => 0);
      askQty := new uint32[size](_ => 0);
      bestBid := 0;
      bestAsk := INVALID_PRICE;
    }

    method AddBid(price: uint32, qty: uint32)
      requires Valid() && price < levels
      modifies this`bestBid, bidQty
      ensures Valid() && Bids() == AddTotals(true, old(Bids()), price, qty) && Asks() == old(Asks())
    {
      bidQty[price] := (bidQty[price] + qty) % TWO32;
      if price > bestBid { bestBid := price; }
    }

    method AddAsk(price: uint32, qty: uint32)
      requires Valid() && price < levels
      modifies this`bestAsk, askQty
      ensures Valid() && Asks() == AddTotals(false, old(Asks()), price, qty) && Bids() == old(Bids())
    {
      askQty[price] := (askQty[price] + qty) % TWO32;
      if price < bestAsk { bestAsk := price; }
    }

    method TradeBid(price: uint32, qty: uint32)
      requires Valid() && price < levels
      modifies this`bestBid, bidQty
      ensures Valid() && Bids() == TradeTotals(true, old(Bids()), price, qty) && Asks() == old(Asks())
    {
      if bidQty[price] >= qty {
        bidQty[price] := bidQty[price] - qty;
      } else {
        bidQty[price] := 0;
      }
      if price == bestBid && bidQty[price] == 0 { UpdateBestBid(); }
    }

    method TradeAsk(price: uint32, qty: uint32)
      requires Valid() && price < levels
      modifies this`bestAsk, askQty
      ensures Valid() && Asks() == TradeTotals(false, old(Asks()), price, qty) && Bids() == old(Bids())
    {
      if askQty[price] >= qty {
        askQty[price] := askQty[price] - qty;
      } else {
        askQty[price] := 0;
      }
      if price == bestAsk && askQty[price] == 0 { UpdateBestAsk(); }
    }

    method UpdateBestBid()
      requires Valid()
      modifies this`bestBid
      ensures Valid() && bestBid == ScanBest(true, bidQty[..], old(bestBid))
    {
      ghost var level := bidQty[..];
      while bestBid > 0 && bidQty[bestBid] == 0
        invariant bestBid < levels && ScanDown(level, bestBid) == ScanDown(level, old(bestBid))
        decreases bestBid
      {
        bestBid := bestBid - 1;
      }
      if bidQty[bestBid] == 0 { bestBid := 0; }
    }

    method UpdateBestAsk()
      requires Valid()
      modifies this`bestAsk
      ensures Valid() && bestAsk == ScanBest(false, askQty[..], old(bestAsk))
    {
      ghost var level := askQty[..];
      while bestAsk < levels && askQty[bestAsk] == 0
        invariant bestAsk <= levels || bestAsk == INVALID_PRICE
        invariant ScanUp(level, bestAsk) == ScanUp(level, old(bestAsk))
        decreases levels - bestAsk
      {
        bestAsk := bestAsk + 1;
      }
      if bestAsk >= levels || askQty[bestAsk] == 0 { bestAsk := INVALID_PRICE; }
    }
  }
}
