# Matching engine core, modelled in Dafny

This project models the matching core of a single-instrument trading venue:
- a two-sided limit order book;
- the engine that feeds orders into it, resolves crosses and sweeps market orders.

It covers three source files.

- `src/orders.py` (module `Orders`, file `orders.dfy`):
  - **Creation checks.** A new order or cancel request is a map of named fields. `Order._verify_and_set_order_request` checks that each required field is present with the right kind of value. `NewOrder._verify_and_set_custom_attributes` checks ranges and choices.
  - **Quantity bookkeeping.** An order's fill, iceberg release, "is filled" and "release needed" operations. Orders are values (`datatype Order`). `_update_filled_quantity` and `_release_quantity` become the functions `Fill` and `Release`, whose results are stored back where the order lives.
- `src/orderbook.py`, module `OrderLevels` (file `order_level.dfy`). `OrderLevel` is a class holding:
  - the FIFO queue of orders at one price (`orders: seq<Order>`);
  - the counters `combinedQuantity` and `numberOfOrders`.

  Its methods are proved against pure specification functions:
  - `Distribute`: head-first allocation of a fill.
  - `Cleanup`: filled orders leave, exhausted iceberg orders get a fresh slice and go to the tail.
  - `RemoveOrder`: cancel by id.
- `src/orderbook.py`, module `OrderBooks` (file `order_book.dfy`):
  - **`OrderPage`** is a class holding a map from price to `OrderLevel` and the cached best price. It keeps a ghost view `Contents` (price to queue), and its operations are proved against `InsertOrder`, `CancelAt`, `MatchAt` and `ApplyToPage`.
  - **`OrderBook`** holds the bid page and the ask page.
- `src/matching_engine.py` (module `MatchingEngines`, file `matching_engine.dfy`). `MatchingEngine` does three things:
  - dispatches each request;
  - runs the cross-resolution loop;
  - runs the market-order sweep.

  Between requests it keeps the book well formed and not crossed.

Prices are integer ticks. The clock and the random order id are inputs to the operations that need them.

### Where the model departs from the code

The code has defects that stop it from doing what its comments and docstrings describe. The model implements the described behaviour instead:
- **No double insert.** An order opening a new level is in it once. The code seeds the level with the order and then appends it again (`src/orderbook.py:53-55`).
- **The cancel scan advances.** The code's scan never moves past a non-matching entry (`src/orderbook.py:105-112`).
- **The counter tracks the queue.** `fill_quantity` lowers `combined_quantity` by every allocation, and `_on_fill` adds back each released slice. The code does neither (`src/orderbook.py:127-133`, `156-158`).
- **The best price is kept current and empty levels are removed.** The page recomputes its best price after every change and removes a level left empty. In the code `_update_best_level` is never called and `_delete_order_level` is empty.
- **`OrderBook.on_order_match` exists.** The code calls it but never defines it. Here it fills the best level of the named page, removes that level if empty, and recomputes the best price.
- **Dispatch reads the request's purpose.** The engine's test uses the purpose stored on the order (here, the `New`/`Cancel` variant of `Incoming`). The code reads an attribute name that orders never set.
- **The market-order direction test works.** The code compares the direction with `'Sell'`, so a SELL market order never matches it.
- **The sweep asks for what is still unfilled.** Each pass requests `total - filled`, not the fixed `disclosed_quantity`. The sweep stops with `complete == false` when the opposite side is empty, rather than indexing a missing best level.
- **The cross check is a loop.** `check_limit_order_match` repeats until one side is empty or the best bid is below the best ask.
- **New orders are fully checked.** Creating a new order runs the range and choice checks and sets the display to the disclosed quantity. The code never calls these checks.
- **The common fields are checked.** Creating a new order or a cancel requires `client_id` and `custom_id`, as the base class's field list says. The code never checks them for either kind of request (see Findings).
- **The book has its two pages.** `OrderBook.constructor`, and so `MatchingEngine.constructor`, build an empty bid page and an empty ask page. In the code `MatchingEngine.__init__` builds an `OrderBook` whose pages stay `None`, because `initialize_orderbook` (`src/orderbook.py:9-12`) is never called, so every `on_new_order` would fail.
- **An empty page has no best quote.** `GetBestLevelInfo` and `GetBestQuotes` report nothing on an empty page, and the cross loop then stops. In the code `get_best_level_info` looks up the level at price `None` (`src/orderbook.py:47`), so `check_limit_order_match` fails whenever either side is empty, including after the very first order.

In these cases the model follows the code:
- **Unknown cancel id.** Cancelling an id that is not in the level changes nothing and is not an error, as in the code. The page reports it as `Cancelled(false)`.
- **Cancel at a missing price.** The code raises an exception. The page reports `NoLevelAtPrice` and changes nothing.
- **Cancel without a price.** A cancel request need not carry a price, because price is not among the cancel fields checked at `src/orders.py:127-138`. The code then fails when it reads the price (`src/orderbook.py:51`). The page reports `NoPrice` and changes nothing.
- **Iceberg behaviour in the sweep.** The incoming market order keeps the code's release step after each pass.

## Model

| member | source | states |
|---|---|---|
| Orders.VerifyOrderRequest | src/orders.py:16-31 | Walks the required fields in order. Succeeds exactly when every field is present with its declared kind. Otherwise it reports the first missing or mistyped field, and every field before it passed. |
| Orders.CustomAttributesError | src/orders.py:81-99 | No error exactly when disclosed ≤ total, the order type is LIMIT or MARKET, the direction is BUY or SELL, and price, total and disclosed are all positive. Disclosed > total is reported first and an unknown order type next. A range error is only reported once the choices are valid. |
| Orders.ToOrder | src/orders.py:68-88 | A checked request becomes an accepted order: nothing filled, the disclosed slice on display, price and quantities taken from the request, and the order id and arrival time taken from the caller's arguments, which stand for the random id and the clock. |
| Orders.CreateNewOrder | src/orders.py:58-71 | Succeeds exactly when all common and new-order fields pass and the custom checks pass; the result is the request's order. A missing or mistyped field is reported before anything is read, and a missing common field is reported as such. |
| Orders.CreateCancelOrder | src/orders.py:126-138 | Succeeds exactly when the common and cancel fields pass. The result carries the requested id and arrival time, BUY exactly when the request says "BUY", and the optional price. |
| Orders.Release | src/orders.py:105-110 | Only the display changes; afterwards display ≤ disclosed and filled + display ≤ total. The display is the disclosed slice or the whole remainder, and is positive while the order is not filled. |
| Orders.Fill | src/orders.py:112-118 | A fill of q changes only the filled and display quantities, keeps their sum, and lowers the quantity still to trade by exactly q. |
| Orders.IsFilled | src/orders.py:120-121 | A well-formed order that is filled shows nothing. |
| Orders.ReleaseNeeded | src/orders.py:123-124 | A well-formed order that needs a release has traded but shows nothing: it is live but not resting. |
| Orders.FillKeepsBounds | src/orders.py:112-118 | A fill of q, 0 ≤ q ≤ display, moves exactly q from display to filled, keeps the order within bounds, and lowers the remaining quantity by q. |
| Orders.FilledShowsNothing | src/orders.py:120-124 | A well-formed filled order shows nothing, so it would also count as needing a release, and has nothing left to trade. |
| Orders.ReleaseMakesResting | src/orders.py:105-110 | Releasing an order that is not filled puts a positive slice on display and keeps its filled and remaining quantities. |
| Orders.AsWrittenAcceptsMissingClientId | src/orders.py:70-71 | As written, a request with no client_id or custom_id passes both verification calls; the full list of required fields rejects it. |
| Orders.AsWrittenCancelAcceptsMissingClientId | src/orders.py:137-138 | As written, a cancel request holding only an id, a direction and a price passes both verification calls; the full list of required fields rejects it. |
| OrderLevels.SumDisplayPositive | src/orderbook.py:82-86 | Over resting orders, the display sum (the intended `combined_quantity`) is positive exactly when the queue is not empty. |
| OrderLevels.DistributeAllocates | src/orderbook.py:127-132 | Head-first allocation changes each order only by a fill between 0 and its display, and keeps every order live. |
| OrderLevels.DistributeSums | src/orderbook.py:127-132 | Allocation lowers the display sum and the remaining sum each by exactly min(request, display sum): the whole request is allocated when it does not exceed the combined quantity. |
| OrderLevels.DistributeHeadFirst | src/orderbook.py:127-132 | An order receives a fill only when every order ahead of it has been emptied. |
| OrderLevels.CleanupRests | src/orderbook.py:138-162 | After the cleanup pass no order is filled, every order shows a positive slice, and the quantity still to trade is unchanged. |
| OrderLevels.RemoveOrderKeepsOthers | src/orderbook.py:98-116 | Removing an id that is present shortens the queue by one and keeps all other orders in their relative order. |
| OrderLevels.FindOrderAppended | src/orderbook.py:88-96 | An order appended to a queue without its id is found at the tail, and removing it gives back the queue. |
| OrderLevels.AsWrittenDeleteNeverEnds | src/orderbook.py:102-112 | As written, when the head carries another id, the scan is still at index 0 after any number of passes. |
| OrderLevels.OrderLevel.constructor | src/orderbook.py:75-86 | A level starts with just its first order; the combined quantity is that order's display and the count is 1. |
| OrderLevels.OrderLevel.UpdateQuantity | src/orderbook.py:118-120 | The combined quantity moves by the given amount. |
| OrderLevels.OrderLevel.AddOrder | src/orderbook.py:88-96 | The order is appended at the tail and earlier orders stay in place. The combined quantity grows by its display and the count by one, and the counters still agree with the queue. |
| OrderLevels.OrderLevel.DeleteOrder | src/orderbook.py:98-116 | Reports whether the id is present. The queue becomes the queue without the first order carrying that id, and the combined quantity drops by that order's display. An unknown id changes nothing. The scan terminates. |
| OrderLevels.OrderLevel.FillQuantity | src/orderbook.py:122-136 | The new queue is the cleanup of the head-first allocation of the request. The counters agree with it, every order rests, and the quantity still to trade drops by min(request, combined quantity). |
| OrderLevels.OrderLevel.OnFill | src/orderbook.py:138-162 | The new queue is the cleanup of the old one: filled orders leave, exhausted iceberg orders move to the tail with a fresh slice, and the others keep their relative order. The counters agree with it. |
| OrderLevels.OrderLevel.FillOrderAt | src/orderbook.py:127-130 | One order takes a fill of at most its display and the combined quantity drops by the same amount. |
| OrderLevels.OrderLevel.PopOrder | src/orderbook.py:148-152 | A filled order leaves the queue and the count drops by one; the counters still agree. |
| OrderLevels.OrderLevel.RequeueOrder | src/orderbook.py:154-159 | An exhausted iceberg order leaves its place and rejoins at the tail with a fresh slice, which is added to the combined quantity. |
| OrderLevels.OrderLevel.IsEmpty | src/orderbook.py:164-165 | The level is empty exactly when its count is 0, and exactly when its combined quantity is 0. |
| OrderBooks.ExtremePrice | src/orderbook.py:43 | Returns the maximum of a non-empty price set for a bid page and the minimum for an ask page. |
| OrderBooks.BestUnique | src/orderbook.py:42-44 | A set of prices has a single best price. |
| OrderBooks.UncrossedStaysUncrossed | src/matching_engine.py:20-22 | Sides that only lose prices cannot become crossed. |
| OrderBooks.InsertKeepsLevels | src/orderbook.py:50-55 | A NEW order keeps every level non-empty and resting at its price, and adds only its own price. |
| OrderBooks.InsertAppendsOnce | src/orderbook.py:53-55 | The order becomes the last entry of the level at its price and appears there exactly once more than before. The page's remaining volume grows by its remaining quantity. |
| OrderBooks.CancelKeepsLevels | src/orderbook.py:56-59 | A cancel keeps every level valid and adds no price. An unknown id leaves the page unchanged. The volume drops by the removed order's remaining quantity. |
| OrderBooks.MatchKeepsLevels | src/orderbook.py:122-162 | A fill at a level keeps every level valid and adds no price, and the volume drops by min(quantity, the level's displayed quantity). |
| OrderBooks.SubmitThenCancel | src/orderbook.py:50-60 | Submitting a NEW order with a fresh id and then cancelling it at its price gives back the page exactly. A level the order opened is removed. |
| OrderBooks.AsWrittenFirstOrderTwice | src/orderbook.py:53-55 | As written, an order opening a level is in it twice, and cancelling it leaves a copy; with the corrected insertion the cancel gives back the empty page. |
| OrderBooks.OrderPage.constructor | src/orderbook.py:31-40 | A page starts with no levels and no best price. |
| OrderBooks.OrderPage.UpdateBestLevel | src/orderbook.py:42-44 | The best price becomes the maximum price present for bids and the minimum for asks, or none when the page is empty. |
| OrderBooks.OrderPage.GetBestLevelInfo | src/orderbook.py:46-48 | Nothing exactly when the page is empty. Otherwise the best price with its level's displayed quantity, which is positive. |
| OrderBooks.OrderPage.AddOrderLevel | src/orderbook.py:62-64 | A fresh level holding just the order is stored at its price, and no other price changes. |
| OrderBooks.OrderPage.DeleteOrderLevel | src/orderbook.py:66-67 | The level at the price leaves the page and no other price changes. |
| OrderBooks.OrderPage.OpenLevel | src/orderbook.py:53-55 | At a price without a level, the page's contents become the insertion of the order, and all levels stay valid. |
| OrderBooks.OrderPage.JoinLevel | src/orderbook.py:53-55 | At a price with a level, the page's contents become the insertion of the order, and all levels stay valid. |
| OrderBooks.OrderPage.CancelIn | src/orderbook.py:56-59 | The contents become the cancel at that price, and a level left empty is removed. The result tells whether the id was there. |
| OrderBooks.OrderPage.OnNewOrder | src/orderbook.py:50-60 | The contents and the outcome are those of ApplyToPage: insert, cancel, missing level or missing price. The page stays valid and the cached best price stays the best. |
| OrderBooks.OrderPage.OnOrderMatch | src/matching_engine.py:24-25 | The best level takes the fill and is removed if left empty, and the best price is recomputed. No price is added, and the volume drops by min(quantity, the best level's displayed quantity). |
| OrderBooks.OrderPage.FillLevel | src/orderbook.py:122-136 | The level at the price takes the fill; the contents become MatchAt of the old contents and all levels stay valid. |
| OrderBooks.OrderBook.constructor | src/orderbook.py:5-12 | Both pages exist, are empty and are well formed. |
| OrderBooks.OrderBook.Crossed | src/matching_engine.py:20-22 | The best bid is at or above the best ask exactly when some bid price is at or above some ask price. |
| OrderBooks.OrderBook.OnNewOrder | src/orderbook.py:14-17 | A BUY request is applied to the bid page and a SELL request to the ask page, as ApplyToPage says; the other page is untouched. |
| OrderBooks.OrderBook.GetBestQuotes | src/orderbook.py:19-22 | Nothing exactly when the named page is empty. Otherwise its best price and that level's positive displayed quantity. |
| OrderBooks.OrderBook.OnOrderMatch | src/matching_engine.py:24-25 | The named page's contents become MatchAt at its best price, and its volume drops by min(quantity, the best quantity). The other page is untouched. |
| MatchingEngines.OppositePage | src/matching_engine.py:30 | A market SELL sweeps the bid page and a market BUY the ask page. |
| MatchingEngines.OwnPage | src/orderbook.py:15 | A request rests on the page opposite to the one a market order of its direction would sweep. |
| MatchingEngines.AsWrittenSellSweepsAsks | src/matching_engine.py:30 | As written, a SELL market order sweeps the ask page, as a BUY would; the corrected test sends it to the bid page. |
| MatchingEngines.AsWrittenSweepOverfills | src/matching_engine.py:29-37 | As written, an iceberg market order of 10 showing 4 trades 12 against a deep level in three passes and is still not filled. |
| MatchingEngines.MatchingEngine.constructor | src/matching_engine.py:4-8 | The engine starts with an empty, well-formed and uncrossed book for its instrument. |
| MatchingEngines.ResolveCrossSettles | src/matching_engine.py:18-26 | Repeated crossing (`ResolveCross`) leaves both sides valid and no longer crossed, adds no price, and takes the same non-negative quantity from both sides. Sides that were not crossed are left as they were. |
| MatchingEngines.ResolveCrossStep | src/matching_engine.py:20-25 | On crossed sides, one round at the best bid and best ask trades min(bid quantity, ask quantity) > 0, keeps both sides valid, and cross resolution goes on from there to the same end. |
| MatchingEngines.SweepTakes | src/matching_engine.py:28-38 | The sweep (`Sweep`) leaves the side valid and adds no price. The order gains at most what it wanted, gains less only when the side is emptied, and the side loses exactly what the order gains. |
| MatchingEngines.SweepStep | src/matching_engine.py:31-35 | One pass at the side's best price trades min(best quantity, wanted) > 0, keeps the side valid, and sweeping on from there ends where the whole sweep does. |
| MatchingEngines.CrossPartialFill | src/matching_engine.py:18-26 | A BUY 10 at 100 against a SELL 5 at 99: one round trades 5, the ask level is removed, and the buyer rests with 5 filled and 5 shown. |
| MatchingEngines.CrossReplenishesIceberg | src/orderbook.py:138-162 | An iceberg BUY 100 showing 20 against a SELL 20 at the same price: the seller is removed, and the buyer has 20 filled, shows a fresh slice of 20 and has 80 left. |
| MatchingEngines.SweepTwoLevels | src/matching_engine.py:28-38 | A market SELL 15 against bids 10 at 100 and 10 at 99 empties and removes 100, then takes 5 at 99, which stays with 5 shown; 15 filled. |
| MatchingEngines.SweepRunsOut | src/matching_engine.py:28-38 | A market BUY 50 against 30 offered over two levels takes the 30 and leaves the ask side empty. |
| MatchingEngines.MatchingEngine.CheckLimitOrderMatch | src/matching_engine.py:18-26 | The two sides end as `ResolveCross` of the sides before: each round trades min(best bid quantity, best ask quantity) at the two best levels. Afterwards the book is not crossed, both sides lost the same quantity and no price was added; a book that was not crossed is left as it was. |
| MatchingEngines.MatchingEngine.MatchBest | src/matching_engine.py:20-25 | On a crossed book, m = min(best bid quantity, best ask quantity) > 0; each page becomes MatchAt of its old contents at its old best price with m, and both volumes drop by exactly m. |
| MatchingEngines.MatchingEngine.TakeBest | src/matching_engine.py:32-34 | Trades 0 exactly when the side is empty, changing nothing. Otherwise trades min(best quantity, wanted) at the side's best price, the page becomes MatchAt there, and its volume drops by what was traded; the other page is untouched. |
| MatchingEngines.MatchingEngine.SweepPass | src/matching_engine.py:31-37 | One pass for an unfilled order: nothing trades exactly when the side is empty, and then nothing changes. Otherwise the side's best level, and only that level, trades the smaller of its shown quantity and total − filled, as `MatchAt` at the best price. The order is filled by exactly that amount, never beyond its total, and shows a fresh slice when its display ran out. Sweeping on for the order ends where it would have from before the pass. |
| MatchingEngines.MatchingEngine.RecordFill | src/matching_engine.py:35-37 | The order records the fill and is released exactly when its display ran out with something traded; only filled and display change, and filled stays within the total. |
| MatchingEngines.SweepForStep | src/matching_engine.py:31-35 | For an order that records a pass's trade, sweeping on from the page after the pass ends where sweeping for the order from before the pass does. |
| MatchingEngines.MatchingEngine.OnNewMarketOrder | src/matching_engine.py:28-38 | The opposite side and the order's filled quantity end as `Sweep` says. The filled quantity stays within the total, the order is complete exactly when filled, and otherwise the opposite side is empty. The opposite side lost exactly what the order traded, its own side is untouched, and the book stays uncrossed. |
| MatchingEngines.MatchingEngine.OnNewOrder | src/matching_engine.py:10-16 | Swept exactly for a NEW MARKET order: the returned order is the incoming one with only its filled and display quantities changed, complete exactly when filled, the opposite side ends as `Sweep` says and the order's own side is untouched, so it is never booked. Any other request is applied to its own page (ApplyToPage) and the sides then end as `ResolveCross` says. The book stays well formed and uncrossed. |

## Left out

- Reflection-based attribute setting and the dynamic `isinstance` checks: requests are maps of typed values, and only presence and kind of each required field are modelled. Extra keys in a request are not copied onto the order.
- Float prices: prices are integer ticks, and an integer price in a cancel request is read the same as a float one.
- `order_id = randint(...)` and `arrival_time = now()`: both are parameters of the creation operations. Order ids are taken to be unique where a property needs it (`SubmitThenCancel`).
- Aliasing of order objects: orders are values stored in the level's queue, so the model does not capture an order object shared between a level and another holder.
- `src/database.py` (Redis I/O) is not part of this model. `OrderLevel.__str__`, `OrderBook.execute`, the unused `instrument_name` of `OrderBook` and `pending_market_orders_list` are also left out.
- The quote-type check of `get_best_qoutes`: quote types are the two-valued `PageType`, so no other value can be passed.
- Fill records and trade events: the source emits none.
- Best-price lookup is a linear pass over the prices present (`ExtremePrice`), as in the source; an ordered map is not modelled.
- OrderBooks.ExtremePrice: requires a non-empty price set. `UpdateBestLevel` sets no best price on an empty page, where the source's `min`/`max` of an empty dict would raise.
- MatchingEngines.MatchingEngine.OnNewMarketOrder: does not bound the incoming order's display. A pass may trade more than the order shows, and as in the source the display can then go below 0 without a release.
- A request's direction other than "BUY" on a cancel is routed to the ask page, as in the source; cancel directions are not checked against the choices.

## Findings

| source | as written | input that shows it | evidently intended | confidence | as-written member | corrected member |
|---|---|---|---|---|---|---|
| src/orders.py:70-71 | Both verification calls use the subclass's field list, so `client_id` and `custom_id` are never checked | a LIMIT request with every new-order field but no `client_id` or `custom_id` | the common fields are required too | not executed | Orders.AsWrittenAcceptsMissingClientId | Orders.CreateNewOrder |
| src/orders.py:137-138 | The same two calls on a cancel also use the subclass's list, so `client_id` and `custom_id` are never checked | a cancel request holding only `order_id`, `direction` and `price` | the common fields are required too | not executed | Orders.AsWrittenCancelAcceptsMissingClientId | Orders.CreateCancelOrder |
| src/orderbook.py:53-55 | A new level is seeded with the order and the order is then appended again | an order at a price with no level | the order appears once | not executed | OrderBooks.AsWrittenFirstOrderTwice | OrderBooks.InsertAppendsOnce |
| src/orderbook.py:105-112 | `idx` never advances when the entry does not match | a level whose head carries a different id | the scan moves on and ends | not executed | OrderLevels.AsWrittenDeleteNeverEnds | OrderLevels.OrderLevel.DeleteOrder |
| src/matching_engine.py:30 | The direction is compared with `'Sell'` while orders carry `'SELL'` | a SELL market order | a SELL sweeps the bids | not executed | MatchingEngines.AsWrittenSellSweepsAsks | MatchingEngines.OppositePage |
| src/matching_engine.py:29-35 | Each pass asks for the fixed `disclosed_quantity` | a market order with total 10 and disclosed 4 against a level of 100 | each pass asks for `total - filled`, so the order never trades more than its total | not executed | MatchingEngines.AsWrittenSweepOverfills | MatchingEngines.MatchingEngine.OnNewMarketOrder |
