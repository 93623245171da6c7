# Order matching engine of intermoney, in Dafny

This project models the `Matching` class of `orders/tests.py`. It is a
continuous double auction. Incoming orders cross the opposite side of their
market's book under price priority. Each match emits a trade at the resting
order's price.

- `get_bid_ask` returns the best resting bid and ask.
- `take` crosses one incoming order (the taker) against the depth of the
  other side.
- `process_order` admits a submitted (WAITING) order to matching.
- `process_queue` drains every submitted order, oldest first.

The database is modelled as a sequence of order rows (`seq<Order>`). Each row
is keyed by its `id`. A query's `filter` becomes `Book.Filter`, its
`order_by` becomes `Sorting.SortBy`, and `save()` becomes `Book.Save`, which
replaces the row with the saved order's id. The trades a call emits are
returned as a sequence, in emission order.

Modules, one per concern:

- `Orders` (orders.dfy): `Order`, `Trade`, sides, statuses, eligibility, and `Fill`.
- `Sorting` (sorting.dfy): an insertion sort by an integer key.
- `Book` (book.dfy): rows, write-back, depth, best bid/ask, and total filled quantity.
- `Matching` (matching.dfy): `take`, as the recursive `Cross` over the depth plus the write-back in `Take`.
- `Processing` (processing.dfy): `process_order` and `process_queue`.
- `Scenarios` (scenarios.dfy): concrete books worked through `ProcessOrder` and `ProcessQueue`.

Modelling choices:

- **`Order.fill`.** It lives in `orders/models.py`, which is not part of this model. It is assumed to add `n` to `filled`. The order is then FILLED when `filled == size` and PARTIALLY_FILLED otherwise (`Orders.Fill`).
- **Query snapshots.** A Django queryset walked by a `for` loop is fetched once, when the loop starts. So the depth in `take` and the queue in `process_queue` are snapshots.
  - `Take` reads the depth once. It writes the matched makers and the taker back after the loop. Nothing reads the book inside the loop, and each row's last save is its final state, so the book ends the same as with the per-match saves. When nothing crosses, the loop body never runs and nothing is saved, so `Take` returns the book as it was.
  - `Drain` processes the queued snapshot values, as the source does. `Processing.DrainIsCurrent` proves that each snapshot is still the current row when its turn comes.
- **Ties.** `take` orders the depth by price only, and the queue is ordered by `created_at` only. The database leaves the order of equal keys unspecified. Here, equal keys keep the order the insertion sort gives them. No property is claimed about ties.
- **Well-formedness.** `0 <= filled <= size`, unique ids, and the order being a row of the book are hypotheses of the lemmas. They are not `requires` of the operations. The source checks none of them, and the operations are total without them.

Behaviour of the code worth knowing:

- The depth is ordered by price alone (orders/tests.py:31,33). The order of equal prices is left to the database.
- A partial fill leaves the order PARTIALLY_FILLED under the assumed `fill`. Nothing in `take` sets UPDATED.
- Every processed market order is marked FILLED, even when it could not fill (orders/tests.py:70-73).
  - `Scenarios.MarketOrderOnEmptyBook` shows this with an empty book.
  - `Scenarios.MarketSellAgainstSmallerBid` shows it with a market order only half filled.

## Model

| member | source | states |
|---|---|---|
| Orders.Fill | orders/tests.py:41-42 | `fill(n)` adds exactly `n` to the fill counter and keeps every other term of the order. Afterwards the order is FILLED iff nothing remains, and PARTIALLY_FILLED otherwise. |
| Sorting.SortBy | orders/tests.py:79 | `order_by` returns its input's rows, and only those, sorted by the key. |
| Sorting.SortByPermutes | orders/tests.py:79 | `order_by` is a permutation: every row occurs in the result as often as in the input. |
| Sorting.SortByUnique | orders/tests.py:79 | Sorting never duplicates a row: unique ids stay unique. |
| Book.Filter | orders/tests.py:31-33 | A query's `filter` keeps exactly the rows satisfying the condition. It never duplicates a row. |
| Book.Save | orders/tests.py:43-44 | `save()` writes the order into the row with its id. Every other row keeps its value, and the book keeps its size. |
| Book.SaveAll | orders/tests.py:41-44 | Writing back several orders keeps the book's size and every row's id in its place. |
| Book.SaveAllRows | orders/tests.py:43-44 | After a sequence of `save()` calls with distinct ids, each row holds the order saved with its id. A row no save touched is unchanged, and no row moves or changes id. |
| Book.Depth | orders/tests.py:30-33 | The depth holds exactly the rows of the market and side whose status is NEW, UPDATED or PARTIALLY_FILLED and whose price is not 0. It is ordered best price first: descending for bids, ascending for asks. |
| Book.DepthUnique | orders/tests.py:30-33 | The depth lists each row at most once. |
| Book.GetBidAsk | orders/tests.py:14-24 | The bid is None iff no eligible BUY rests. Otherwise it is the price of an eligible BUY and no eligible BUY is priced higher. The ask mirrors this: the lowest eligible SELL price, or None. |
| Book.SumFilledSave | orders/tests.py:43-44 | One `save()` changes the book's total filled quantity by exactly the change to the saved row's counter. |
| Matching.Crosses | orders/tests.py:35-36 | The loop goes on past an entry iff the taker is a market order, or a SELL meets a bid at or above its price, or a BUY meets an ask at or below its price. |
| Matching.FillSize | orders/tests.py:37-40 | A fill is the smaller of the two remaining sizes: it exceeds neither, and it uses up one of them. |
| Matching.TradeOf | orders/tests.py:45-59 | The trade of a match is priced at the maker's price, carries the taker's side and the fill size, and names buyer and seller by the orders' sides. |
| Matching.TakeDepth | orders/tests.py:29-33 | A SELL's depth is the BUY side of its market and a BUY's depth the SELL side: exactly the resting, priced rows there, best price first. |
| Matching.Cross | orders/tests.py:34-61 | The loop emits at most one trade per depth entry and one updated maker per trade. It never changes the taker's terms. The taker's filled grows by exactly the traded total. With no trade the taker is unchanged. After a trade the taker is FILLED iff nothing remains, and PARTIALLY_FILLED otherwise. |
| Matching.CrossRecords | orders/tests.py:35-59 | Trade i matches depth entry i, and that entry crosses the taker's price. The trade is priced at the maker's price and carries the taker's side. The buyer and seller follow the orders' real sides. The maker absorbed exactly the trade's size. |
| Matching.CrossFillsInTurn | orders/tests.py:37-40 | The loop takes its fills in turn. Each fill is the minimum of the taker's remaining size and the maker's remaining size, and the taker's remaining size then drops by that fill. |
| Matching.FillsInTurnAt | orders/tests.py:37-40 | Fills taken in turn, read at trade i: its size is the minimum of two amounts. One is what the taker had left after the first i trades. The other is what the i-th maker had left. |
| Matching.CrossStops | orders/tests.py:34-61 | The loop ends before the depth is exhausted only in two cases: the taker is FILLED after a trade, or the next entry fails the price test. |
| Matching.CrossFilledStopsAt | orders/tests.py:60-61 | For one trade other than the first: the trades before it had not yet brought the taker's filled up to its size. |
| Matching.CrossFilledStops | orders/tests.py:60-61 | The loop breaks as soon as the taker is filled: no trade follows the one that fills it. |
| Matching.CrossConsumes | orders/tests.py:37-61 | Every maker except the last ends FILLED. The last one ends FILLED unless the taker does. If the taker is not FILLED, every maker is. |
| Matching.CrossNoOverfill | orders/tests.py:37-42 | If the taker and the depth are well formed (`0 <= filled <= size`), every fill is non-negative and no order over-fills. |
| Matching.CrossConserves | orders/tests.py:37-58 | The makers together absorbed exactly the traded total, and so did the taker. |
| Matching.CrossTrades | orders/tests.py:35-59 | Against a depth of priced orders, every trade is priced. Each trade carries the taker's side and id, and stays within a priced taker's limit. |
| Matching.Take | orders/tests.py:28-61 | `take` keeps the book's size and the taker's terms, and the taker gains exactly the traded total. With no trade the taker and the whole book are unchanged. After a trade the taker is FILLED iff nothing remains, and PARTIALLY_FILLED otherwise. |
| Matching.TakeTrades | orders/tests.py:31-59 | No trade of `take` is at price 0, so a market order never makes. Every trade carries the taker's side and names the taker as buyer or seller. A priced SELL trades only at or above its price, and a priced BUY only at or below it. |
| Matching.MakersUnique | orders/tests.py:34-42 | Each matched maker keeps the id of its depth entry, so no resting order is matched twice. |
| Matching.TakeRow | orders/tests.py:41-44 | For one row: it keeps its id. If it is the taker's row, it holds the taker's final state. If it is a matched maker, it absorbed exactly its trade's size. Otherwise it is unchanged, and so is every row that is not an eligible maker. |
| Matching.TakeBook | orders/tests.py:41-44 | Over the whole book: the taker's row holds the taker's final state. Each matched resting row absorbed exactly its trade's size. Every other row is unchanged, including the depth entries after the break point and every row that is not an eligible maker. |
| Matching.TakeRowStatus | orders/tests.py:41-44 | For one row: `take` leaves it untouched if it is a WAITING row other than the taker's, and never returns it to WAITING once processed. |
| Matching.TakeStatuses | orders/tests.py:41-44 | `take` leaves WAITING rows other than the taker untouched and never returns a processed row to WAITING. |
| Matching.TakePriority | orders/tests.py:31-36 | The trades of one `take` run from the best maker price to the worst. |
| Matching.TakeStops | orders/tests.py:34-61 | `take` stops short of the depth's end only when the taker is FILLED, or a priced SELL meets a lower bid, or a priced BUY meets a higher ask. |
| Matching.TakeFilledStops | orders/tests.py:60-61 | No trade of `take` follows the one that fills the taker. |
| Matching.TakeRowNoOverfill | orders/tests.py:37-44 | From a book of well-formed orders, any one row is still well formed after `take`. |
| Matching.TakeNoOverfill | orders/tests.py:37-44 | From a book of well-formed orders, every row is still well formed after `take`. |
| Matching.TakeConsistent | orders/tests.py:41-44 | If every row's FILLED status meant nothing remained before `take`, the same holds after. |
| Matching.SaveAllGain | orders/tests.py:41-43 | Writing back the matched makers raises the book's total filled quantity by exactly what the makers absorbed. |
| Matching.TakeConservesFills | orders/tests.py:37-59 | Double-entry conservation: `take` raises the book's total filled quantity by exactly twice the traded size, once for the taker and once across the makers. |
| Processing.ProcessOrder | orders/tests.py:64-75 | A non-WAITING order leaves the book unchanged and emits no trade. The book keeps its size. |
| Processing.ProcessOrderRow | orders/tests.py:64-75 | `ProcessOrderRows` for one row of the book. |
| Processing.ProcessOrderRows | orders/tests.py:64-75 | For a WAITING order in the book, its row keeps its terms and gains the traded total. That row is no longer WAITING. It is FILLED for a market order. For a priced order it is NEW if nothing traded, and otherwise FILLED iff nothing remains. Other WAITING rows are untouched, and processed rows stay processed. |
| Processing.ProcessOrderNoOverfill | orders/tests.py:64-75 | Processing one order keeps every row well formed. |
| Processing.ProcessPricedOrderConsistent | orders/tests.py:74-75 | Processing a priced order keeps every row's FILLED status honest. |
| Processing.ProcessOrderConservesFills | orders/tests.py:64-75 | Processing one order raises the total filled quantity by twice what it traded. Forcing a market order to FILLED changes no counter. |
| Processing.WaitingQueue | orders/tests.py:79 | The queue holds exactly the WAITING rows, in ascending `created_at` order. |
| Processing.WaitingQueuePermutes | orders/tests.py:79 | The queue is a permutation of the book's WAITING rows taken in book order: the sort adds, drops and duplicates nothing. |
| Processing.WaitingQueueUnique | orders/tests.py:79 | Each WAITING order is queued once. |
| Processing.Drain | orders/tests.py:80-81 | `process_order` once per queued snapshot, in queue order, each on the book the previous one left. The book keeps its size. |
| Processing.DrainSkipsProcessed | orders/tests.py:65 | A queue of snapshots none of which is WAITING changes nothing and emits no trade. |
| Processing.ProcessQueue | orders/tests.py:78-81 | `Drain` over `WaitingQueue`. The book keeps its size, and with no WAITING order it is left as it was, with no trade. |
| Processing.DrainStepFresh | orders/tests.py:80-81 | Processing the head of the queue leaves every later queued order still WAITING and still its own current row. |
| Processing.DrainIsCurrent | orders/tests.py:78-81 | Draining the snapshot queue gives the same book and trades as re-reading each order's current row before processing it. |
| Processing.DrainClears | orders/tests.py:78-81 | After the drain, no queued order is WAITING and no processed row has gone back to WAITING. |
| Processing.ProcessQueueDrains | orders/tests.py:78-81 | After `process_queue`, no order in the book is WAITING. |
| Processing.DrainNoOverfill | orders/tests.py:78-81 | No order over-fills during a drain. |
| Processing.DrainConservesFills | orders/tests.py:78-81 | Over a drain, the total filled quantity rises by twice the size of all trades emitted. |
| Processing.ProcessQueueSound | orders/tests.py:78-81 | `process_queue` on well-formed orders keeps them well formed and conserves fills. |
| Scenarios.MarketOrderOnEmptyBook | orders/tests.py:70-73 | A market BUY of 50 on an empty book emits no trade. It ends FILLED with 0 filled, so its status contradicts its counter. |
| Scenarios.BuyAcrossTwoAsks | orders/tests.py:28-61 | Asks 20@100 and 10@99, stored in that order, against a BUY of 15@100 give a trade of 10 at 99 and then 5 at 100. The ask at 99 ends FILLED and the ask at 100 PARTIALLY_FILLED with 5 filled. The buy ends FILLED. |
| Scenarios.MarketSellAgainstSmallerBid | orders/tests.py:70-73 | A market SELL of 100 against a bid of 50@100 gives one trade of 50 at 100. The bid ends FILLED. The sell is also marked FILLED, with 50 unfilled. |
| Scenarios.QueuedPairQueue | orders/tests.py:79 | A submitted SELL and a later submitted BUY, the buy stored first: the queue holds the sell, then the buy. |
| Scenarios.QueuedPairFirst | orders/tests.py:31-33 | Processed first, the SELL 10@100 finds no bid, because the BUY 10@100 is still WAITING and so not in the depth. The sell rests as NEW. |
| Scenarios.DrainTwo | orders/tests.py:80-81 | Draining a queue of two processes the second order on the book the first left, and its trades follow the first's. |
| Scenarios.QueuedPairDrain | orders/tests.py:80-81 | Draining that queue: the sell rests, then the buy takes it in one trade of 10 at 100, and both end FILLED. |
| Scenarios.QueuedPairDrains | orders/tests.py:78-81 | `process_queue` over that pair, both WAITING: one trade of 10 at 100 with the buy as taker, and both orders end FILLED with 10 filled. |
| Scenarios.SellAboveBidRests | orders/tests.py:35-36 | A SELL at 150 against a bid at 100 does not cross: no trade, and the sell rests as NEW. |

## Left out

- `return_level2` (orders/tests.py:84-89): it is unfinished. It ignores its parameters, neither groups nor sorts, and depends on ORM aggregation, so it promises no behaviour.
- The `TestOrder` methods (orders/tests.py:92-184): apart from `test_market_exists`, which counts markets, they print rather than assert. `Scenarios` uses small books of its own rather than their price ladders.
- `Order.fill`: `orders/models.py` is not part of this model. Its behaviour is the assumption stated for `Orders.Fill`.
- Persistence: transactions, the INSERT that `save()` performs for a missing row, and `Trade.objects.create` row ids and timestamps. Orders always come from the book, so the missing-row case does not arise in these calls.
- Users, markets, tickers, `sender` and `hash_signature`: they are opaque references. A market is a number, and the sender and signature are not represented.
- Integer width: prices, sizes and counters are unbounded integers. No column overflow is modelled.
- Sides: a side is BUY or SELL. In the source, an order with any other side value meets an empty depth. That case cannot be represented here.
- Concurrency: nothing in the source runs concurrently. Each call is modelled as one atomic step on the book.
- Sorting.SortBy: the order of rows with equal keys is left unstated, because the database does not define it either.
