# Order-book engine: model and proofs

The engine routes market messages by symbol to one of a few cached order books. Everything lives in flat arrays:
a trie maps an 8-byte symbol to a book id, an LFU cache maps a book id to one of its book slots, every book keeps a
FIFO queue per side and price, and the orders of all books lie in one shared array whose free slots form a list through
the same `next` field that links the queues. Each book also keeps a Fenwick tree of volumes per side, from which it
finds its best price and answers depth queries in logarithmic time.

The project models these layers as they are: classes over arrays, changed in place by the loops of the original. Each
class is proved to implement a small specification on values, and the theorems about whole runs are proved about the
specification. All capacities are symbolic; `EngineSpec.BUILT` has those the engine is built with.

| file | what it holds |
|---|---|
| `Machine`, `Bits` | fixed-width integers and sentinels; the lowest set bit and `idx & (-idx)` |
| `FenwickTree` | range sums, the tree, its updates, queries and searches by binary lifting |
| `OrderPool`, `LevelQueues` | the shared order array with its freelist; the queues threaded through it |
| `BookSpec`, `BookTheorems`, `VolumeBounds` | a book on values, its runs, and what holds of all of them |
| `Operations` | what every operation answers and leaves, told from the queues and the freelist alone |
| `Separation`, `Arrival`, `Lockstep` | exactly when the two books agree; arrival order; the two books taken through one run |
| `ScanSide`, `MBOBook` | the book that scans level totals for its best prices |
| `BitSide`, `MBOBookWithBIT` | the book that lifts in a Fenwick tree |
| `PriceLevelBook`, `TotalsRefinement` | the book of totals only; exactly when a book of queues keeps the same totals |
| `LfuSpec`, `LFUDirectory`, `LFUCache` | the cache policy, its O(1) bookkeeping, and the books it hands out |
| `TrieSpec`, `PrefixTrie` | the symbol map, and the flat-array trie |
| `Serving`, `Symbols` | what a message does on the side its price has; which symbols share an id and a book |
| `EngineSpec`, `Conservation`, `EngineTheorems`, `MessageReplay`, `Crossing`, `Registration`, `Router` | the message step, theorems over all runs, and the step in place |

## How the model is laid out

* `MBOBook` and `MBOBookWithBIT` write each operation twice, once for bids and once for asks. Here a side is an object
  (`ScanSide`, `BitSide`) over the arrays both books share (`LevelQueues`), and the book's methods call one side or
  the other. The two searches of the tree share their loop, `Lift`, which they enter with different targets.
* The cache is split in two: `LFUDirectory` has the nodes, buckets, slot maps and counters, `LFUCache` the books.
* Ghost state ties arrays to values: the freelist as a sequence and the owner of each slot in the pool, a queue
  of entries per price, the list of ids per frequency, the prefix each trie node stands for. The owner is what keeps
  books that share the pool apart: a step of one book changes only slots that are its own or free (`BookFrame`).
* `BookSpec.Step` has one parameter, how an emptied best level is repaired: `Scan` over 32-bit level totals, or
  `Lifting` over the true volumes. `MBOBook` implements the first and `MBOBookWithBIT` the second.
* Every class invariant is established by its constructor, and `EngineSpec.History` runs from `InitialEngine`, which
  meets the engine's invariant for all capacities that `ConfigOk` allows, the built ones among them.
* 32-bit totals wrap explicitly, Fenwick cells are `int64`, and cache counters are kept modulo 2^64.

## What turned out false, and what holds instead

* The two books do not agree on every run: a level total is 32 bits wide, and once it wraps the scanning book takes a
  full level for an empty one (`OverflowReached`, `OverflowSeparatesTheBooks`). They agree on a run, on every part of it
  and on any cancels that follow, if and only if no accepted add takes its level total to 2^32 or more anywhere but at
  bid price 0, where a scan ends whatever the total says (`BooksAgreeIff`, and for one operation `CancelsAgreeIff`).
  Totals are exact throughout a run if and only if no accepted add overflows at all (`TotalsExactIffNoOverflow`). No
  precondition of any operation excludes the overflow.
* The best price need not have volume: an order of quantity 0 in an empty book is its best price
  (`BestPriceCanBeHollow`). Totals and best prices are exact throughout a run if and only if no accepted add overflows
  and none of quantity 0 beats the best price of its side (`BestPricesExactIff`, and for every cached book of the engine
  `BooksExactIffSafe`). That the tree book has no volume beyond its best prices holds always (`LiftingNeverMissesVolume`).
* A book of queues and a book of totals do not keep the same totals on every run, for three reasons. A trade that takes
  no order at an empty best price makes only the book of totals repair that price (`TradeCanMismatch`). On a wrapped
  total a partial fill is taken off without a clamp in the queue book and with one in the book of totals
  (`WrappedTradeMismatches`). And an add refused for want of a slot is still added to the totals
  (`RefusedAddMismatches`). For one trade and any totals they agree if and only if `TradeMatches` holds, which can be
  told from the queue and its total (`TradeRefinesTotals`); over runs of adds and trades from any book they agree
  throughout if and only if every operation matches (`QueuesRefineTotalsIff`). In runs that neither overflow nor are
  refused only the first reason is left (`PlainRunMatchesIff`).
* Books can cross (`BooksCanCross`), in two ways (`AddUncrossedIff`). Without asks the mid price is computed from a
  32-bit sum that includes the sentinel, and an add between half the best bid and the best bid becomes an ask. With a
  best ask of 1 and no bid above 0 the mid price comes out 0, and the default in its place makes bids of adds above the
  ask; but no book of a run has an ask below 2. So over all runs from the start no book is ever crossed if and only if
  no message meets the first guard (`CrossedIff`).
* `ask_depth` adds the number of levels in 32 bits; where that wraps it answers 0, and it is right if and only if it
  does not wrap or nothing rests in the range (`AskDepthTrueIff`, with an input in `AskDepthCanWrap`). The ranges of both
  depth queries include both ends, one price more than their comment says.
* `get_or_create` reports `created` also when the insert failed, so the engine's count of unique symbols goes up with
  every message for a symbol that cannot be registered. It gives no id exactly as `InsertFailsIff` says, and 1000
  symbols get there (`CreatedWithoutId`).
* The spread is a 32-bit difference: right if and only if the best bid is not above the best ask (`SpreadTrueIff`),
  always in runs without a crossing message (`SpreadsTrueUncrossed`), and 2^32 - 40 after the adds that cross a book
  (`SpreadCanWrap`).
* Different symbols can share a book: bytes of 128 and more are read as 0. Served messages meet in one book if and only
  if their symbols agree once that is done, so always and only for equal symbols in plain ASCII (`MessagesMeetIff`,
  `SameIdIff`).
* The trie gives ids up to 999 but the cache accepts ids below 256 only, so symbols registered later are never
  served (`IgnoredIff`, `LateSymbolsAreDropped`); 257 symbols are enough (`LateSymbolsOccur`).

## Model

| member | source | states |
|---|---|---|
| `Bits.LowbitTrick` | fenwick.hpp:27 | on every nonzero 32-bit index, `idx & (-idx)` with wrapping negation is the value of its lowest set bit |
| `RangeSums.CellUpdate` | fenwick.hpp:22-29 | a change at position p changes the block sum of exactly the cells covering p, by that amount |
| `RangeSums.NextCovering` | fenwick.hpp:27 | from a cell covering p the next covering cell is `j + lowbit(j)`, with none in between, so the update walk misses nothing |
| `RangeSums.Narrow` | fenwick.hpp:64-69 | one lifting step keeps pos a multiple of twice the current power, remaining equal to the target minus the first pos values, and the crossing inside the range left, for any N |
| `RangeSums.CrossingTotalIsLast` | fenwick.hpp:57-71 | where prefix sums of nonnegative values first reach the total, the value is nonzero and all later ones are zero |
| `RangeSums.CrossingOneIsFirst` | fenwick.hpp:75-89 | where they first reach 1, the value is nonzero and all earlier ones are zero |
| `Fenwick.FenwickTree.constructor` | fenwick.hpp:17-19 | every cell starts as the sum of its block of zeros |
| `Fenwick.FenwickTree.Init` | fenwick.hpp:17-19 | all values become zero and every cell holds its block sum again |
| `Fenwick.FenwickTree.Update` | fenwick.hpp:22-29 | adds delta at one position and to exactly the in-range cells covering it, so every cell still is its block sum; out of range nothing changes; at most floor(log2 N)+1 steps |
| `Fenwick.FenwickTree.PrefixSum` | fenwick.hpp:32-41 | the true sum over positions 0 to the argument, clamped to the last, for every 32-bit argument; at most floor(log2 N)+1 steps |
| `Fenwick.FenwickTree.RangeSum` | fenwick.hpp:44-48 | the true sum over the requested range cut to the positions there are, 0 for reversed ranges and ranges past the end |
| `Fenwick.FenwickTree.PointQuery` | fenwick.hpp:51-53 | the value at a position, 0 out of range |
| `Fenwick.FenwickTree.HighestBit` | fenwick.hpp:92-96 | the greatest power of two not above N |
| `Fenwick.FenwickTree.Lift` | fenwick.hpp:61-70 | the position at which prefix sums of nonnegative values first reach a target, for any N, in at most floor(log2 N)+1 steps |
| `Fenwick.FenwickTree.FindLastNonzero` | fenwick.hpp:57-71 | the greatest index with a nonzero value, or N when all are zero |
| `Fenwick.FenwickTree.FindFirstNonzero` | fenwick.hpp:75-89 | the least index with a nonzero value, or N when all are zero |
| `Distinctness.Pigeonhole` | mbo.hpp:37 | pairwise different slots below n number at most n, the bound on orders resting at once |
| `VolumeBounds.FlatIsDistinct` | mbo.hpp:106-115 | the queues of one side hold pairwise different slots, each active and owned by that book and side |
| `VolumeBounds.VolumesFit` | fenwick.hpp:14-41 | every range sum of a side's volumes lies between 0 and the number of slots times 2^32-1, so no tree cell or prefix sum leaves int64 |
| `EngineTheorems.BuiltSteps` | fenwick.hpp:108 | for the built number of prices the step bound of updates, sums and searches is 17 |
| `EngineTheorems.BuiltVolumes` | mbo.hpp:37 | with the built number of orders every range sum of a side's volumes is below 2^52 |
| `Pool.AllocKeepsFreelist` | mbo.hpp:59-71 | taking the head leaves a list without repetition that holds exactly the inactive slots |
| `Pool.FreeKeepsFreelist` | mbo.hpp:74-83 | pushing an active slot does the same |
| `Pool.ReleaseSlots` | mbo.hpp:74-83 | releasing slots one after the other adds exactly those to the freelist |
| `Pool.OrderPool.constructor` | mbo.hpp:45-56 | all slots are inactive and the freelist is 0, 1, 2, ... to the end |
| `Pool.OrderPool.Alloc` | mbo.hpp:59-71 | takes the head of the freelist and resets its links and nothing else; the null index and no change when empty; every slot stays inactive exactly when it is on the freelist, and active_count plus its length is the capacity |
| `Pool.OrderPool.Free` | mbo.hpp:74-83 | an active slot goes to the head of the freelist; inactive and out-of-range slots change nothing |
| `Pool.OrderPool.Put` | mbo.hpp:86-92 | writing through a reference to an active order leaves the freelist as it is |
| `QueueLinks.AppendKeepsSide` | mbo.hpp:158-171 | linking a fresh slot behind the tail gives the queue plus the order, with mutually inverse links and right ends, and leaves every other slot in use alone |
| `QueueLinks.RemoveKeepsSide` | mbo.hpp:235-248 | unlinking any order gives the queue without it, with mutually inverse links and right ends, and leaves all other sides and books alone |
| `QueueLinks.ShrinkKeepsSide` | mbo.hpp:278 | changing a quantity in place keeps all links |
| `QueueLinks.DrainKeepsSide` | mbo.hpp:355-360 | freeing a whole queue slot by slot leaves the side well linked with that level empty |
| `QueueLinks.BookFrameKeepsOthers` | mbo.hpp:121-122 | a step of one book leaves the queues of any other book on the same pool as they were |
| `Levels.LevelQueues.constructor` | mbo.hpp:130-140 | a new side has empty queues and zero totals |
| `Levels.LevelQueues.Append` | mbo.hpp:155-173 | the order goes behind the queue at its price, the total grows modulo 2^32, the slot comes off the freelist; nothing changes when the pool is exhausted |
| `Levels.LevelQueues.Attach` | mbo.hpp:158-171 | the writes that fill a slot in and link it, and no others |
| `Levels.LevelQueues.Unlink` | mbo.hpp:221-248 | the one entry behind the handle leaves its queue, its quantity is taken from the total with a clamp at zero, its slot heads the freelist |
| `Levels.LevelQueues.Detach` | mbo.hpp:235-246 | the writes that link the neighbours to each other, and no others |
| `Levels.LevelQueues.Shrink` | mbo.hpp:277-279 | the head order and the total lose the quantity, all other orders keep theirs |
| `Levels.LevelQueues.FreeChain` | mbo.hpp:355-360 | walks and frees a queue while its links are overwritten by the freelist, releasing exactly its slots in order |
| `Levels.LevelQueues.ResetLevel` | mbo.hpp:370-375 | head, tail and total of one level are reset |
| `ScanSides.ScanSide.Enqueue` | mbo.hpp:152-180 | refused or placed as the specification says, best price raised only by a better one |
| `ScanSides.ScanSide.Dequeue` | mbo.hpp:215-257 | removes the one entry of the handle and repairs the best price by scanning when its level empties |
| `ScanSides.ScanSide.UpdateBest` | mbo.hpp:317-333 | ends at the first nonempty level at or behind the best price, or the side's empty value |
| `ScanSides.ScanSide.Trade` | mbo.hpp:262-287 | the loop is the recursive match against the queue, and ends although orders of quantity 0 leave the quantity unchanged |
| `ScanBook.MBOBook.constructor` | mbo.hpp:130-147 | an empty book |
| `ScanBook.MBOBook.EnqueueBid` | mbo.hpp:152-180 | book, freelist and returned handle are those of the specified step; slots of others stay |
| `ScanBook.MBOBook.EnqueueAsk` | mbo.hpp:182-210 | the same for asks |
| `ScanBook.MBOBook.Dequeue` | mbo.hpp:215-257 | the same for a cancel by handle; null handles and handles of freed slots do nothing |
| `ScanBook.MBOBook.TradeBid` | mbo.hpp:262-287 | the same for trades, with the filled quantity |
| `ScanBook.MBOBook.TradeAsk` | mbo.hpp:289-312 | the same for asks |
| `ScanBook.MBOBook.Clear` | mbo.hpp:352-379 | the book is empty and exactly its orders are back on the freelist, in the order freed |
| `ScanBook.MBOBook.FreeAll` | mbo.hpp:353-368 | the first pass frees every order while heads and tails still name the old ones |
| `ScanBook.MBOBook.StartOver` | mbo.hpp:369-378 | once its orders are freed the book is valid and empty |
| `ScanBook.MBOBook.ResetAll` | mbo.hpp:369-376 | the second pass resets every level |
| `BitSides.BitSide.Enqueue` | fenwick.hpp:160-190 | the specified step, with tree values equal to the queue volumes at every price afterwards |
| `BitSides.BitSide.Remove` | fenwick.hpp:233-267 | one entry leaves its queue and the tree; the level total is clamped, the tree is exact |
| `BitSides.BitSide.Dequeue` | fenwick.hpp:227-275 | the same, and the best price found by lifting when its level total reaches zero |
| `BitSides.BitSide.Account` | fenwick.hpp:182 | the tree follows the volumes, without leaving int64 |
| `BitSides.BitSide.Shrink` | fenwick.hpp:294-296 | a partial fill takes the same quantity from order, level total and tree |
| `BitSides.BitSide.UpdateBest` | fenwick.hpp:373-381 | the best price becomes the extreme price with volume, or the side's empty value |
| `BitSides.BitSide.Trade` | fenwick.hpp:280-304 | the loop is the recursive match against the queue, and ends although orders of quantity 0 leave the quantity unchanged |
| `BitSides.BitSide.Reset` | fenwick.hpp:424-427 | tree and best price of an emptied side |
| `BitBook.MBOBookWithBIT.constructor` | fenwick.hpp:136-155 | an empty book |
| `BitBook.MBOBookWithBIT.EnqueueBid` | fenwick.hpp:160-190 | book, freelist and returned handle are those of the specified step; slots of others stay |
| `BitBook.MBOBookWithBIT.EnqueueAsk` | fenwick.hpp:192-222 | the same for asks |
| `BitBook.MBOBookWithBIT.Dequeue` | fenwick.hpp:227-275 | the same for a cancel by handle |
| `BitBook.MBOBookWithBIT.TradeBid` | fenwick.hpp:280-304 | the same for trades, with the filled quantity |
| `BitBook.MBOBookWithBIT.TradeAsk` | fenwick.hpp:306-330 | the same for asks |
| `BitBook.MBOBookWithBIT.Clear` | fenwick.hpp:400-428 | the book is empty and exactly its orders are back on the freelist, in the order freed; other books' slots stay |
| `BitBook.MBOBookWithBIT.ClearLevel` | fenwick.hpp:401-423 | one level of the pass, after which the book is well linked again |
| `BitBook.MBOBookWithBIT.Init` | fenwick.hpp:136-155 | a cleared book is set up anew and stays empty |
| `BitBook.MBOBookWithBIT.Places` | fenwick.hpp:227-238 | a slot rests in the book exactly when it is active and the book's own, at one place only, on the side and price of its record, which has its id and quantity and links it to the slots before and behind it |
| `BitBook.MBOBookWithBIT.StaysLinked` | fenwick.hpp:130 | a change to the pool on behalf of another book leaves this book linked as it was |
| `VolumeBounds.RangeIsWithin` | fenwick.hpp:44-48 | a range sum of the tree's values, with its end cut to the last price, is the volume of exactly the queues whose prices lie in the range asked for |
| `BitBook.MBOBookWithBIT.CumulativeBidVolume` | fenwick.hpp:337-339 | the volume of all bid queues at prices up to the argument |
| `BitBook.MBOBookWithBIT.CumulativeAskVolume` | fenwick.hpp:342-344 | the same for asks |
| `BitBook.MBOBookWithBIT.BidVolumeRange` | fenwick.hpp:347-349 | the volume of all bid queues whose prices lie in the range, for every range |
| `BitBook.MBOBookWithBIT.AskVolumeRange` | fenwick.hpp:352-354 | the same for asks |
| `BitBook.MBOBookWithBIT.BidDepth` | fenwick.hpp:357-361 | the volume of all bid queues at prices p with best - count <= p <= best; 0 when the best bid is 0 |
| `BitBook.MBOBookWithBIT.AskDepth` | fenwick.hpp:364-368 | the volume of all ask queues at prices p with best <= p <= best + count, and 0 where that end wraps 32 bits or there is no ask |
| `VolumeBounds.AskDepthTrueIff` | fenwick.hpp:364-368 | with an ask it is the volume at those prices if and only if the end does not wrap or nothing rests there; 0 without one |
| `VolumeBounds.AskDepthCanWrap` | fenwick.hpp:366 | one ask of 3 is found with a count of 0 and lost with a count of 2^32-1 |
| `BitBook.MBOBookWithBIT.Spread` | fenwick.hpp:393-396 | the difference of the best prices modulo 2^32, 0 when one is missing |
| `Crossing.SpreadTrueIff` | fenwick.hpp:393-396 | where both best prices are there the spread is their difference if and only if the bid is not above the ask; 0 where one is missing |
| `Crossing.SpreadsTrueUncrossed` | fenwick.hpp:393-396 | in runs without a crossing message every spread is true and positive throughout |
| `Crossing.SpreadCanWrap` | fenwick.hpp:393-396 | the adds that cross a book leave it with a spread of 2^32-40 |
| `Operations.AddAnswers` | fenwick.hpp:160-190 | an add answers the null handle if and only if its price is out of range or no slot is free, and then changes nothing; otherwise it answers the slot taken from the freelist, where the order now rests last in its queue, and no other queue changes |
| `Operations.AddBest` | fenwick.hpp:181-186 | the best price becomes the better of the old one and the add's, one total grows modulo 2^32 |
| `Operations.CancelAnswers` | fenwick.hpp:227-275 | a cancel of an order anywhere in its queue takes out exactly that entry and no other; the slot then rests nowhere and heads the freelist |
| `Operations.CancelOfNothing` | fenwick.hpp:227-229 | a cancel of a slot that rests nowhere in the book changes nothing |
| `Operations.CancelBest` | fenwick.hpp:262-274 | the best price stays unless its total comes to zero; then the tree book has the extreme price with volume, the scanning book the next nonzero total or the empty value |
| `Operations.CancelUndoesAdd` | fenwick.hpp:160-275 | cancelling the handle an add answered gives back all queues and the freelist, and the totals unless the add wrapped one |
| `Operations.TradeAnswers` | fenwick.hpp:280-304 | a trade answers the lesser of its quantity and the volume at its price, 0 out of range; it takes orders from the front, shortens at most the next one, and only to fill all; it frees exactly those taken, the last one heading the freelist |
| `Operations.TradeIsCancels` | fenwick.hpp:280-304 | a trade does to queues, totals and best price what cancelling the orders it takes whole one by one does, followed by at most one partial fill |
| `Operations.ReleaseReverses` | mbo.hpp:74-83 | slots freed one after the other are on the freelist in reverse |
| `Operations.ClearOrderAt` | fenwick.hpp:401-423 | clear frees each resting order in its turn: lower prices first, bids before asks, then in order of arrival |
| `Operations.ClearAnswers` | fenwick.hpp:400-428 | afterwards there is no order, total or best price, and the freelist starts with all orders there were, the one freed last first |
| `Operations.StepVolume` | fenwick.hpp:160-330 | what rests after an operation, was filled and was cancelled is what rested before and entered |
| `Operations.VolumeConserved` | fenwick.hpp:160-330 | over every run, wrapped totals included, what rests at the end, all fills answered and all cancels add up to what rested at first and what entered |
| `BookTheorems.AddKeepsLevels` | fenwick.hpp:181 | after an add the level totals are the queue volumes if and only if the total did not pass 32 bits |
| `BookTheorems.DropKeepsLevels` | fenwick.hpp:242-246 | while totals are exact the clamp at zero is never taken, and they stay exact |
| `BookTheorems.TradeKeepsLevels` | fenwick.hpp:280-304 | a trade keeps totals exact |
| `BookTheorems.TotalsExactIffNoOverflow` | fenwick.hpp:181 | over any run, totals are the queue volumes throughout if and only if no accepted add reaches 2^32 at its level |
| `BookTheorems.TradeIsFifo` | fenwick.hpp:280-304 | a trade releases exactly the fully matched orders from the front, shortens at most the next, keeps the others in order and touches neither queue nor total of any other level |
| `BookTheorems.FifoFills` | fenwick.hpp:283-303 | it fills the lesser of the quantity asked and the volume at the level, and the volume falls by that |
| `BookTheorems.TradeFills` | fenwick.hpp:280-304 | every trade, under either repair and with any totals, fills the lesser of the quantity asked and the volume at its price |
| `BookTheorems.RepairsAgree` | fenwick.hpp:373-381 | scan and lifting find the same best price while all totals but that of bid price 0 are exact and nothing lies beyond the old one |
| `BookTheorems.StepsAgree` | fenwick.hpp:160-330 | both books take the same step on any operation, and if it is harmless the conditions for the next one hold |
| `BookTheorems.FastRefinesSimple` | fenwick.hpp:160-381 | over every run in which no total but that of bid price 0 overflows both books have the same queues, totals, best prices and freelists and return the same handles and fills, zero-quantity orders included |
| `Separation.Separate` | fenwick.hpp:373-381 | wherever a total has wrapped, other than at bid price 0, some cancels of head orders give the two books different best prices on that side |
| `Separation.CancelsAgreeIff` | fenwick.hpp:181 | after one operation both books do the same on all sequences of cancels if and only if it is harmless: no overflow, or at bid price 0 |
| `Separation.BooksAgreeIff` | fenwick.hpp:160-381 | the books agree on every part of a run followed by any cancels if and only if every operation of the run is harmless |
| `Separation.PlaceIsUnique` | fenwick.hpp:227-238 | where each slot occurs once, a handle names at most one resting order |
| `Separation.StartIsInStep` | fenwick.hpp:136-155 | an empty book with a freelist without repetition meets the conditions of these theorems |
| `Lockstep.StepBoth` | fenwick.hpp:160-330 | the two classes, in the same state, take any harmless operation to the same state with the same outcome |
| `Lockstep.RunBoth` | fenwick.hpp:160-330 | the same over any harmless run, with the outcomes of the specified run |
| `Lockstep.NewPair` | fenwick.hpp:136-155 | new books on new pools start in the same state |
| `BookTheorems.OverflowReached` | fenwick.hpp:181 | two adds reach a book whose level total wrapped to zero |
| `BookTheorems.OverflowSeparatesTheBooks` | mbo.hpp:252-253 | cancelling one of them then gives the two books different best bids |
| `BookTheorems.BestPriceCanBeHollow` | fenwick.hpp:184-186 | one add of quantity 0 leaves a best ask without volume |
| `BookTheorems.AddKeepsExactIff` | fenwick.hpp:181-186 | an add keeps totals and best price exact if and only if its total fits and it does not beat the best price with quantity 0 |
| `BookTheorems.BestPricesExactIff` | fenwick.hpp:184-186 | over every run, under either repair, totals are volumes and best prices the extreme prices with volume throughout if and only if every accepted add is of that kind |
| `BookTheorems.LiftingNeverMissesVolume` | fenwick.hpp:269-274 | over every run of the tree book, overflowing or not, no level beyond a best price has volume |
| `ArrivalOrder.QueuesAreArrivals` | mbo.hpp:163-171 | over every run, whatever ids adds carry, each queue is a subsequence of what it was followed by the orders accepted there, in order of arrival: price-time priority |
| `ArrivalOrder.QueuesKeepArrivalOrder` | mbo.hpp:163-171 | in particular, when adds are numbered as they come every queue stays sorted by number |
| `TotalsBook.PriceLevelBook.constructor` | types.hpp:63-71 | all totals zero and no best prices |
| `TotalsBook.PriceLevelBook.AddBid` | types.hpp:98-103 | one total grows modulo 2^32, the best bid is raised only by a better one, the asks stay |
| `TotalsBook.PriceLevelBook.AddAsk` | types.hpp:106-111 | the same for asks |
| `TotalsBook.PriceLevelBook.TradeBid` | types.hpp:133-144 | saturating subtraction, and a scan when the best level is left empty; the asks stay |
| `TotalsBook.PriceLevelBook.TradeAsk` | types.hpp:147-158 | the same for asks |
| `TotalsBook.PriceLevelBook.UpdateBestBid` | types.hpp:162-169 | the scan ends at the first nonempty level at or below, or 0 |
| `TotalsBook.PriceLevelBook.UpdateBestAsk` | types.hpp:173-180 | the scan ends at the first nonempty level at or above, or the invalid price |
| `TotalsRefinement.TradeLevel` | mbo.hpp:262-287 | for either repair rule and any totals, the loop over orders leaves the total that the orders taken whole, with a clamp, and the part of the next one, modulo 2^32, leave; no other total changes |
| `TotalsRefinement.TradeSubtracts` | types.hpp:133-138 | while totals are exact, that is one saturating subtraction |
| `TotalsRefinement.TradeBest` | mbo.hpp:262-287 | for any totals, the repairs inside the loop end where one scan from the price emptied by orders taken whole ends, and there is none otherwise |
| `TotalsRefinement.TradeRefinesTotals` | types.hpp:133-158 | for any side, wrapped or not, a trade on queues leaves the totals and best price of a trade on totals if and only if the stated guard on quantity, queue and total holds |
| `TotalsRefinement.ExactMatchesIff` | types.hpp:133-158 | while totals are exact the guard fails for one trade only: that takes no order at an empty best price |
| `TotalsRefinement.StepRefinesTotals` | types.hpp:98-158 | one add or trade keeps the two books together if and only if it matches; an add does unless it is refused and would have changed totals or best price |
| `TotalsRefinement.QueuesRefineTotalsIff` | types.hpp:98-180 | over every run of adds and trades from any book, overflowing and refused ones included, the queue book and the book of totals keep the same totals and best prices throughout if and only if every operation matches |
| `TotalsRefinement.PlainRunMatchesIff` | types.hpp:98-180 | where no add overflows or is refused, that is if and only if no trade takes no order at an empty best price |
| `TotalsRefinement.QueuesRefineTotals` | types.hpp:98-180 | runs from an exact book whose adds also keep best prices exact match throughout |
| `TotalsRefinement.TradeCanMismatch` | types.hpp:140-143 | one add of quantity 0 reaches a book where a trade of quantity 0 leaves the two with different best asks |
| `TotalsRefinement.WrappedTradeMismatches` | mbo.hpp:276-281 | after two adds that wrap a total, a trade of 1 leaves totals of 2^32-1 and 0 |
| `TotalsRefinement.RefusedAddMismatches` | mbo.hpp:155-156 | an add refused by an empty pool leaves totals of 0 and 1 |
| `FrequencyLists.AddKeepsBuckets` | lfu_cache.hpp:215-230 | inserting at a bucket's head keeps every bucket a doubly linked list with right ends and count, each node under its frequency |
| `FrequencyLists.RemoveKeepsBuckets` | lfu_cache.hpp:232-251 | splicing any node out keeps the same |
| `FrequencyLists.ListsAdd` | lfu_cache.hpp:181-182 | re-inserting at the head keeps buckets ordered newest access first, at the saturated frequency too |
| `FrequencyLists.TailIsVictim` | lfu_cache.hpp:188-196 | the tail of the least bucket comes before every other cached book in (frequency, last access) |
| `FrequencyLists.MinAfterHit` | lfu_cache.hpp:175-178 | after a hit min_frequency is still the least frequency in use, without a scan |
| `LfuSpec.VictimExists` | lfu_cache.hpp:188-196 | among cached books with distinct access times one comes first in (frequency, last access) |
| `LfuSpec.AccessKeepsDirectory` | lfu_cache.hpp:115-162 | slots and cached ids stay in one-to-one correspondence, misses stay cached books plus evictions; a hit moves nobody, a miss takes the next slot or exactly the victim's, and nobody else moves |
| `LfuDirectories.LFUDirectory.constructor` | lfu_cache.hpp:82-110 | an empty directory |
| `LfuDirectories.LFUDirectory.AddToBucket` | lfu_cache.hpp:215-230 | the id heads its bucket; nodes change in links only |
| `LfuDirectories.LFUDirectory.RemoveFromBucket` | lfu_cache.hpp:232-251 | the id leaves its bucket, order kept; nodes change in links only |
| `LfuDirectories.LFUDirectory.UpdateFrequency` | lfu_cache.hpp:167-183 | buckets track one more access now, saturating, and min_frequency is exact |
| `LfuDirectories.LFUDirectory.EvictLfu` | lfu_cache.hpp:188-210 | the slot given back is that of the least used, least recent book; the fallback to slot 0 is unreachable |
| `LfuDirectories.LFUDirectory.Access` | lfu_cache.hpp:115-162 | one call is one access of the policy, on any reachable cache |
| `LfuDirectories.LFUDirectory.Reuse` | lfu_cache.hpp:120-125 | the hit branch |
| `LfuDirectories.LFUDirectory.Replace` | lfu_cache.hpp:127-155 | the miss branch |
| `LfuDirectories.LFUDirectory.Admit` | lfu_cache.hpp:142-151 | the new book is the newest in bucket 1, and 1 is then the least frequency |
| `LfuDirectories.LFUDirectory.IsCached` | lfu_cache.hpp:277-279 | true exactly for cached ids, false out of range |
| `LfuDirectories.LFUDirectory.SlotOf` | lfu_cache.hpp:256-261 | the slot of a cached id, and the null index exactly for the others |
| `LfuDirectories.LFUDirectory.GetFrequency` | lfu_cache.hpp:282-285 | for a cached book its accesses since admission, capped one below the bound; for one that has left the cache that number when it last did; 0 for any other id |
| `BookCache.LFUCache.constructor` | lfu_cache.hpp:82-110 | empty books on one pool that share no memory |
| `BookCache.LFUCache.Access` | lfu_cache.hpp:115-162 | the book in the slot the policy names; a hit changes no book, a miss empties exactly that slot's book and returns exactly its orders to the pool; ids out of range change nothing |
| `BookCache.LFUCache.Reclaim` | lfu_cache.hpp:157-159 | one book is emptied and its orders released, all other books and their orders stay |
| `BookCache.LFUCache.Peek` | lfu_cache.hpp:256-261 | the book of a cached id, null exactly for the others |
| `BookCache.LFUCache.SlotsPartitioned` | mbo.hpp:40-42 | every slot is on the freelist when inactive, else in one queue of exactly the book that owns it, at one place, on the side and price of its record, which has its id, quantity and neighbours |
| `TrieSpec.PrefixesPresent` | trie.hpp:43-62 | with a path every prefix of it has a node |
| `TrieSpec.GrowKeepsPaths` | trie.hpp:52-61 | allocating a path, wholly or in part, keeps the tree and all nodes there were, and adds only prefixes of the symbol |
| `TrieSpec.InsertKeepsTrie` | trie.hpp:43-73 | insert keeps the tree and the one-to-one ids 0 to next_book_id-1, whether it succeeds or fails |
| `TrieSpec.InsertFailsIff` | trie.hpp:52-68 | insert fails if and only if the symbol is new and its missing prefixes outnumber the nodes left, or no ids are left |
| `TrieSpec.InsertLookups` | trie.hpp:43-96 | lookup of the inserted symbol returns what insert returned, every other lookup is unchanged, and a failed insert changes none |
| `TrieSpec.IdsAreStable` | trie.hpp:101-110 | over every run ids stay one to one and contiguous, and an id once given never changes |
| `SymbolTrie.ParentIsUnique` | trie.hpp:19-25 | no node of the flat array has two parents |
| `SymbolTrie.NodeAdded` | trie.hpp:52-59 | linking the next node from its parent makes it stand for exactly the missing prefix |
| `SymbolTrie.PrefixTrie.constructor` | trie.hpp:30-39 | the root alone and no ids |
| `SymbolTrie.PrefixTrie.Insert` | trie.hpp:43-73 | tree, map and returned id are those of the specified insert of the normalised symbol |
| `SymbolTrie.PrefixTrie.AddNode` | trie.hpp:57-58 | one more prefix has a node, nothing else changes |
| `SymbolTrie.PrefixTrie.GiveId` | trie.hpp:65-72 | a node keeps its id or gets the next one while there are ids |
| `SymbolTrie.PrefixTrie.Child` | trie.hpp:52-61 | the node of the path one byte longer, 0 exactly when that has none |
| `SymbolTrie.PrefixTrie.Lookup` | trie.hpp:78-96 | the id in the map of the normalised symbol, the invalid id when there is none |
| `SymbolTrie.PrefixTrie.GetOrCreate` | trie.hpp:101-110 | the specified lookup or insert; `created` says the symbol was unknown before, not that it is known now |
| `Symbols.SameIdIff` | trie.hpp:78-96 | registered symbols have the same id if and only if they agree at each position, bytes from 128 on read as 0; symbols of plain ASCII if and only if they are equal |
| `Symbols.RegisterStores` | trie.hpp:101-110 | for every byte string: a registered symbol keeps its id and changes nothing, a new one gets the next id, which its lookups answer from then on, or the invalid id; lookups of all symbols that read differently stay |
| `Symbols.RunKeepsIds` | trie.hpp:101-110 | over every run of registrations a registered byte string keeps its id |
| `Symbols.AnswersStand` | trie.hpp:101-110 | every valid id answered in a run is what a lookup of that symbol answers at its end |
| `Symbols.AnswersSameIff` | trie.hpp:101-110 | over every run two successful registrations answer the same id if and only if their symbols read alike |
| `Symbols.ProcessRegisters` | main.cpp:424-436 | every message registers its symbol, served or not, and is served under exactly that id, if the cache accepts it |
| `Symbols.ServedIdsStand` | main.cpp:424-436 | after any run, a lookup of a served message's symbol answers the id it was served under |
| `Symbols.MessagesMeetIff` | main.cpp:424-436 | over every run two served messages are for the same book if and only if their symbols read alike |
| `EngineSpec.ProcessOk` | main.cpp:424-467 | every message keeps trie, directory and books well formed |
| `Conservation.StepConserves` | mbo.hpp:59-83 | every operation keeps the number of times each slot occurs on the freelist and in the book together |
| `Conservation.RunOfBookConserves` | mbo.hpp:59-83 | and so does every run of a book |
| `Conservation.AdmitConserves` | lfu_cache.hpp:157-161 | a miss returns to the pool exactly the orders of the book whose slot is reused, a hit none |
| `Conservation.RunConserves` | main.cpp:424-467 | every run of messages keeps the number of times each slot occurs on the freelist and in all books |
| `Conservation.EverySlotOnce` | main.cpp:347-467 | after any run from the start each slot is on the freelist or in one queue of one book, once, and free slots plus resting orders are the capacity |
| `Conservation.RestingAndFree` | mbo.hpp:41-42 | after any run from the start the length of the freelist and the number of orders in all books add up to the capacity of the pool |
| `EngineTheorems.CachedBooksAreReplays` | main.cpp:424-465 | after any run a cached book equals the replay, on an empty book, of the effects of its own messages since its last admission |
| `Serving.Served` | main.cpp:438-465 | for every book and message: 'A' puts one order of the message's quantity, with id (timestamp mod 2^32) * 2^32 + price, at the end of the queue at its price, 'T' matches that queue from its front, anything else changes nothing; the side follows from price and best prices, with the default, the missing ask and the 32-bit sum spelled out |
| `Serving.ServedAtQuotes` | main.cpp:442-463 | in an uncrossed book with a best ask of at least 2, messages up to the best bid reach the bids and those from the best ask up the asks, and the other side is left alone |
| `Serving.TradeTakesTheBid` | main.cpp:456-460 | with a bid of 10 at 100 and an ask of 10 at 110, a trade of 5 at 100 takes 5 from the bid |
| `MessageReplay.ProcessEffect` | main.cpp:438-465 | side, price, id and quantity of what a message does follow from the message and the book it finds, given which slot it was handed, if any |
| `MessageReplay.CachedBooksReplayMessages` | main.cpp:424-465 | after any run a cached book equals the replay, on an empty book, of its own messages since its last admission, given the slots they were handed |
| `MessageReplay.SymbolsAreAdmitted` | lfu_cache.hpp:142-146 | after any run each cached book is filed under the symbol of the message that last brought it in |
| `MessageReplay.CountsTell` | main.cpp:424-467 | the messages served are the accesses of the cache, and each message is either served or counted as failed |
| `EngineTheorems.DirectoryIsHistory` | lfu_cache.hpp:115-162 | after any run the directory's counts, times, misses and evictions are those read off the history of messages |
| `EngineTheorems.EvictionIsLeastUsed` | lfu_cache.hpp:188-210 | after any run, a message evicts if and only if it misses with a full cache, and then the cached book least in (capped uses since admission, time of last use) by the history |
| `EngineTheorems.MissesAccounted` | lfu_cache.hpp:128-139 | over any run misses are cached books plus evictions |
| `EngineTheorems.NoCachedBookMissesVolume` | fenwick.hpp:373-381 | in every reachable state no cached book has volume beyond its best prices, whatever was sent |
| `EngineTheorems.BooksExactIffSafe` | fenwick.hpp:181-186 | in every reachable state a cached book has had exact totals and best prices after each message since its admission if and only if its own adds fitted and none of quantity 0 beat a best price; other books' messages do not matter |
| `EngineTheorems.BooksCanCross` | main.cpp:442-452 | two adds leave an empty book with a best ask of 60 and a best bid of 100 |
| `Crossing.AddUncrossedIff` | main.cpp:442-452 | an add leaves an uncrossed book crossed if and only if it is accepted and either there is no ask and its price is between half the best bid and the best bid, or the best prices are 0 and 1 and its price is from 1 to the default mid price |
| `Crossing.TradeStaysBehind` | fenwick.hpp:280-304 | no trade improves the best price of its side |
| `Crossing.OthersStayUncrossed` | main.cpp:454-465 | trades and unknown messages keep an uncrossed book uncrossed |
| `Crossing.ServeKeepsAsks` | main.cpp:442-452 | no message puts an ask at a price below 2 |
| `Crossing.ProcessCrosses` | main.cpp:424-465 | one message leaves uncrossed books uncrossed if and only if it is not an add of the first kind for a cached book |
| `Crossing.CrossedIff` | main.cpp:424-465 | over every run from the start no book is ever crossed if and only if no message is such an add |
| `EngineTheorems.RoutesAreStable` | main.cpp:424-426 | over any run a registered symbol keeps its id |
| `EngineTheorems.IgnoredIff` | main.cpp:432-436 | a message is ignored if and only if its symbol's id is beyond the cache's range, or it is new and nodes, trie ids or cache ids have run out |
| `EngineTheorems.LateSymbolsAreDropped` | lfu_cache.hpp:116 | a symbol with an id beyond the cache's range is never served, after any run, and its messages change nothing |
| `Registration.LateSymbolsOccur` | lfu_cache.hpp:15 | with the built capacities, 257 symbols register one that is ignored from then on |
| `Registration.CreatedWithoutId` | trie.hpp:101-110 | after 1000 symbols the next one has no id and gets none |
| `Routing.Router.constructor` | main.cpp:347-353 | the pool, trie and cache as they start |
| `Routing.Router.Process` | main.cpp:424-467 | one message in place is one specified step of the engine; counters as the source counts |
| `Routing.Router.Locate` | main.cpp:424-436 | symbol to id to book, as specified, with the book of exactly that slot |
| `Routing.Router.Apply` | main.cpp:438-465 | the operation changes that book and the freelist as specified and no other book |
| `Routing.Router.Dispatch` | main.cpp:439-465 | kind, side and quantities reach the book as the specification routes them |
| `Routing.Router.ActiveIsResting` | mbo.hpp:94 | in every state a run reaches, the pool's active count is the number of orders resting in all books |
| `Routing.Router.ProcessNext` | main.cpp:424-467 | one turn of the loop: state and counters after one more message |
| `Routing.Router.Run` | main.cpp:380-468 | the loop over messages reaches the state of the specified run from the start, for every sequence of messages, with the messages served, ignored and for new symbols counted |

## Left out

- Receiving packets: the AF_XDP socket, rings, polling, signals and frame recycling, the packet filter, header parsing and byte swaps. A message enters the model decoded, and messages the parser rejects do not enter it.
- Printing, the hit rate (floating point), `market_maker.py` and `setup_veth.sh`.
- The message counters of the books (`total_adds`, `total_trades`, `total_cancels`, `last_ts_ns`), the loop's `total_adds`, `total_trades` and `total_received`, and plain accessors: they would add only easy members.
- `PriceLevelBook.process_add` and `process_trade`: the running pipeline does not use them, and from a fresh book `process_add` never reaches the ask side. Their side operations are modelled.
- BitBook.MBOBookWithBIT.Init: requires a book without orders, for `init` on any other would forget them; the engine calls it only on cleared books.
- BitBook.MBOBookWithBIT.Dequeue: the handle is null or in range, and if active it belongs to this book; the source reads outside its array or unlinks another book's order otherwise. The tree is updated after the unlinking rather than before it, which nothing in between can observe.
- ScanBook.MBOBook.Dequeue: the same condition on the handle.
- TotalsRefinement.QueuesRefineTotalsIff: covers adds and trades only, as the book of totals has no cancel.
- `Lockstep` has loops that the source does not: they state the refinement on the two classes.
- Fenwick.FenwickTree.constructor: needs at least one position and fewer than 2^31, so that index arithmetic fits 32 bits; pools have at most 2^31 slots and books fewer than 2^31 prices. The built capacities are far below.
- `order_id` is a shift and an or of parts that share no bits; the model writes their sum.
- Struct layout, padding, static assertions and timing.
