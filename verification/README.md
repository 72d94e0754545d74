# Market Mayhem matching engine — a Dafny model

Market Mayhem is a trading game. Players send orders for instruments. A matching engine keeps one
limit order book per symbol and matches each incoming order against the opposite side of its book,
by price-time priority. Every trade moves money between the two players' P&L.

This project models that core:

- the `Order` entity: its constructor defaults and `addFill`;
- the `OrderBook`: bids best-first by descending price, asks by ascending price, FIFO queues within a level;
- the `MatchingEngineService`:
  - order processing, MARKET and LIMIT;
  - the trade execution rule;
  - cancellation;
  - clearing the books;
  - the P&L delta of a trade;
- the two risk rules (maximum order size, restricted symbols);
- the `PlayerScore` counters.

Modules:

- `Types`: sides, order types, statuses, `Option`/`Result`.
- `Orders`: the `Order` class. Its identity is its reference, as in the book's deques.
- `Levels`: a book side as a sequence of price levels, and the pure operations that insert and remove orders.
- `Books`: the `OrderBook` class and its queries.
- `Matching`: the matching rule as a pure function, `Match`, from an incoming order and the counter side to the trades, what is left of the order, and what is left of the counter side. The properties of matching are lemmas about `Match`.
- `Engine`: the matching loops as imperative methods over `Order` and `OrderBook` objects. Each is proved to produce exactly what `Match` says, and to keep every book *sound*:
  - no order rests twice;
  - every resting order has quantity, is NEW or PARTIAL, and has filled and remaining quantities that add up to its quantity;
  - best bid below best ask;
  - only orders for the book's symbol.
- `Service`: the `MatchingEngineService` class with its map of books by symbol.
- `Pnl`: the P&L ledger a trade updates.
- `Risk`: the two risk rules.
- `Scores`: `PlayerScore`.

How the model represents the Java code:

- **Prices** are integers counting ticks of 0.0001, the scale the Java code stores prices with. A MARKET order has no price (`None`).
- **Quantities** are unbounded integers.
- **A LIMIT order without a price** makes the Java code throw a null-pointer exception. This happens in `canCross` when the counter side is not empty, and in `addOrder` otherwise. The exception is caught in `processOrder`, which marks the order REJECTED and rethrows. The model returns `Failure(MissingPrice)` and marks the order REJECTED, with nothing traded and the book unchanged.
- **Cancelling an order without a price** fails the same way in the Java code's `TreeMap.get`. The model returns the same failure: always on the SELL side, and on the BUY side whenever there are bids. The reverse-ordered bid map only compares keys when it is non-empty.
- **A MARKET order that runs out of liquidity after some fills** ends REJECTED, with its trades kept, exactly as the Java code does.

## Model

| member | source | states |
|---|---|---|
| Orders.Order.constructor | market-mayhem/src/main/java/com/example/marketmayhem/model/Order.java:43-67 | A new order has the given attributes, status NEW, filled quantity 0 and remaining quantity equal to its quantity, so filled + remaining = quantity |
| Orders.Order.AddFill | market-mayhem/src/main/java/com/example/marketmayhem/model/Order.java:106-114 | A fill adds to the filled quantity and takes the same amount off the remaining quantity. The status becomes FILLED when nothing remains and PARTIAL otherwise. filled + remaining = quantity is preserved |
| Levels.Insert | market-mayhem/src/main/java/com/example/marketmayhem/engine/OrderBook.java:44-52 | Adding an order keeps the side strictly ordered by priority with no empty level. The new best price is the order's own price or the old best |
| Levels.InsertQueues | market-mayhem/src/main/java/com/example/marketmayhem/engine/OrderBook.java:44-52 | The order is appended at the tail of the queue at its price. Every other price level is unchanged |
| Levels.InsertOrders | market-mayhem/src/main/java/com/example/marketmayhem/engine/OrderBook.java:44-52 | The side's orders after an insertion are the old ones plus the new order, as a multiset |
| Levels.InsertFifo | market-mayhem/src/main/java/com/example/marketmayhem/engine/OrderBook.java:44-52 | Two orders added at the same price queue in arrival order. On an empty side the first of them becomes the best order |
| Levels.Remove | market-mayhem/src/main/java/com/example/marketmayhem/engine/OrderBook.java:58-74 | Removal reports whether the order was queued at its price; if not, nothing changes. The side stays ordered and free of empty levels |
| Levels.RemoveQueues | market-mayhem/src/main/java/com/example/marketmayhem/engine/OrderBook.java:58-74 | Only the queue at the order's price changes, losing the first occurrence of the order |
| Levels.RemoveFlat | market-mayhem/src/main/java/com/example/marketmayhem/engine/OrderBook.java:58-74 | A successful removal takes the first occurrence of the order out of the side's orders in priority order; every other order keeps its place |
| Levels.RemoveOrders | market-mayhem/src/main/java/com/example/marketmayhem/engine/OrderBook.java:58-74 | A successful removal takes exactly one copy of the order out of the side's orders |
| Levels.RemoveFirstAt | market-mayhem/src/main/java/com/example/marketmayhem/engine/OrderBook.java:64 | Deque removal drops the first occurrence of the order and keeps everything before and after it in order |
| Levels.RemoveFirstCounts | market-mayhem/src/main/java/com/example/marketmayhem/engine/OrderBook.java:64 | Deque removal shortens a queue that holds the order by one and adds nothing. The contents lose one copy of the order |
| Levels.RemoveDistinct | market-mayhem/src/main/java/com/example/marketmayhem/engine/OrderBook.java:58-74 | On a side without repeats, removal succeeds exactly when the order is on that side. Afterwards it is gone, no repeats appear and no new order appears |
| Levels.RemoveFront | market-mayhem/src/main/java/com/example/marketmayhem/engine/MatchingEngineService.java:172-174 | Removing the best order of a side takes exactly the first order off the side's priority sequence |
| Levels.BestHasPriority | market-mayhem/src/main/java/com/example/marketmayhem/engine/OrderBook.java:27-31 | Every order on a side is on that side and priced at or behind the best level. The side's first order is the head of the best level's queue |
| Levels.Sorted | market-mayhem/src/main/java/com/example/marketmayhem/engine/OrderBook.java:27-31 | Bid levels are in strictly descending price order, ask levels in strictly ascending order |
| Levels.LevelIffQueue | market-mayhem/src/main/java/com/example/marketmayhem/engine/OrderBook.java:63-67 | A price is a level of the side exactly when a non-empty queue is kept for it, because empty levels are removed |
| Levels.Front | market-mayhem/src/main/java/com/example/marketmayhem/engine/OrderBook.java:79-102 | The front of a side is absent exactly when the side is empty. Otherwise it is the first order in priority, on that side, at the best price, with no order of the side ahead of it |
| Levels.QueueAtOrders | market-mayhem/src/main/java/com/example/marketmayhem/engine/OrderBook.java:115-124 | Every order queued at a price is on that side, has that price and rests on the side |
| Levels.QueueAtIsFilter | market-mayhem/src/main/java/com/example/marketmayhem/engine/OrderBook.java:115-124 | On a well-formed side, the queue at a price is exactly the side's orders at that price, in priority order |
| Levels.Count | market-mayhem/src/main/java/com/example/marketmayhem/engine/OrderBook.java:214-222 | The sum of the queue sizes is the number of orders on the side |
| Levels.Depth | market-mayhem/src/main/java/com/example/marketmayhem/engine/OrderBook.java:250-255 | The top n levels, each as its price and the total remaining quantity of its queue |
| Books.HalfUp | market-mayhem/src/main/java/com/example/marketmayhem/engine/OrderBook.java:193-194 | Halving with HALF_UP rounding: exact for even sums, and rounded away from zero for odd ones |
| Books.OrderBook.constructor | market-mayhem/src/main/java/com/example/marketmayhem/engine/OrderBook.java:36-38 | A new book carries its symbol and has no bids and no asks |
| Books.OrderBook.AddOrder | market-mayhem/src/main/java/com/example/marketmayhem/engine/OrderBook.java:44-52 | The order's side becomes the `Insert` of the order; the other side is unchanged |
| Books.OrderBook.RemoveOrder | market-mayhem/src/main/java/com/example/marketmayhem/engine/OrderBook.java:58-74 | The order's side becomes the `Remove` of the order, and the result says whether it was there. The other side is unchanged |
| Books.OrderBook.Clear | market-mayhem/src/main/java/com/example/marketmayhem/engine/OrderBook.java:234-242 | Both sides become empty |
| Books.OrderBook.BestBid | market-mayhem/src/main/java/com/example/marketmayhem/engine/OrderBook.java:79-88 | The best bid is absent only when there are no bids. Otherwise it is the first bid in priority, at the top bid level's price, and no bid is priced above it |
| Books.OrderBook.BestAsk | market-mayhem/src/main/java/com/example/marketmayhem/engine/OrderBook.java:93-102 | The best ask is absent only when there are no asks. Otherwise it is the first ask in priority, at the top ask level's price, and no ask is priced below it |
| Books.OrderBook.BestPrice | market-mayhem/src/main/java/com/example/marketmayhem/engine/OrderBook.java:107-110 | The best price of a side is absent exactly when the side is empty. Otherwise it is one of the side's level prices and no order of the side is ahead of it |
| Books.OrderBook.OrdersAtPrice | market-mayhem/src/main/java/com/example/marketmayhem/engine/OrderBook.java:115-124 | The result is every order of the side at that price and nothing else, in priority order. It is empty exactly when the price is not a level of the side |
| Books.OrderBook.QuantityAtPrice | market-mayhem/src/main/java/com/example/marketmayhem/engine/OrderBook.java:129-133 | The quantity is the sum of the remaining quantities of the side's orders at that price, so 0 at a price with no level. In a healthy book it is positive exactly at the level prices |
| Books.OrderBook.LevelQuantity | market-mayhem/src/main/java/com/example/marketmayhem/engine/OrderBook.java:129-133 | In a healthy book the remaining quantities at a price add up to something positive exactly when the price is a level |
| Books.OrderBook.Snapshot | market-mayhem/src/main/java/com/example/marketmayhem/engine/OrderBook.java:139-156 | A negative depth gives no snapshot, as the stream limit throws for it. Otherwise the snapshot carries the book's symbol and the top `levels` levels per side, or all of them when there are fewer. Each level holds its price and total remaining quantity. Bid levels are strictly descending and ask levels strictly ascending |
| Books.OrderBook.CanCross | market-mayhem/src/main/java/com/example/marketmayhem/engine/OrderBook.java:162-170 | A BUY crosses exactly when an ask exists at or below its price. A SELL crosses exactly when a bid exists at or above its price |
| Books.OrderBook.Spread | market-mayhem/src/main/java/com/example/marketmayhem/engine/OrderBook.java:175-183 | The spread exists exactly when both sides are non-empty. It is best ask minus best bid, and it is positive exactly when the book is uncrossed |
| Books.OrderBook.MidPrice | market-mayhem/src/main/java/com/example/marketmayhem/engine/OrderBook.java:188-197 | The mid price exists exactly when both sides are non-empty. It is the sum of the two best prices halved and rounded half-up, so within half a tick of their average. It lies between them in an uncrossed book |
| Books.OrderBook.OrderCount | market-mayhem/src/main/java/com/example/marketmayhem/engine/OrderBook.java:214-222 | The count is the number of resting bids plus resting asks |
| Books.OrderBook.IsEmpty | market-mayhem/src/main/java/com/example/marketmayhem/engine/OrderBook.java:202-209 | The book is empty exactly when it holds no order |
| Matching.MatchConservesQuantity | market-mayhem/src/main/java/com/example/marketmayhem/engine/MatchingEngineService.java:161-183 | The traded quantities plus what is left of the incoming order equal its remaining quantity, and its filled quantity grows by exactly the traded quantities. Every trade is for a positive quantity. When anything trades, what is left is non-negative and strictly smaller |
| Matching.MatchFollowsPriority | market-mayhem/src/main/java/com/example/marketmayhem/engine/MatchingEngineService.java:165-171 | The i-th trade is against the i-th resting order in priority order, at that order's price and for the order's symbol. Its buy id is the BUY order's id and its sell id the SELL order's id |
| Matching.MatchTradeQuantities | market-mayhem/src/main/java/com/example/marketmayhem/engine/MatchingEngineService.java:220-229 | Each trade is for the smaller of what the incoming order has left and what the resting order has |
| Matching.MinChainAt | market-mayhem/src/main/java/com/example/marketmayhem/engine/MatchingEngineService.java:220 | The i-th trade's quantity is the minimum of the incoming order's quantity minus the earlier trades and the i-th resting order's quantity |
| Matching.MatchRestShape | market-mayhem/src/main/java/com/example/marketmayhem/engine/MatchingEngineService.java:169-177 | Every resting order before the last one traded is fully consumed and leaves the book. If the last is only partly filled, the incoming order is done and that order stays at the front, PARTIAL, with the trade quantity moved from its remaining to its filled quantity and the rest of the book behind it |
| Matching.MatchStopsOnlyWhenDone | market-mayhem/src/main/java/com/example/marketmayhem/engine/MatchingEngineService.java:132-153 | Matching stops with quantity left only when the counter side is empty or, for a LIMIT order, its best order no longer crosses. The counter side stays live: every order has quantity left, is NEW or PARTIAL, and its filled and remaining quantities add up to its quantity |
| Matching.NextLive | market-mayhem/src/main/java/com/example/marketmayhem/engine/MatchingEngineService.java:169-177 | One iteration with a fill no larger than the front order's quantity keeps the counter side live: a used-up order leaves, a partly filled one stays PARTIAL with quantity left, and the orders behind are unchanged |
| Matching.NextAddsUp | market-mayhem/src/main/java/com/example/marketmayhem/engine/MatchingEngineService.java:220-229 | A fill moves quantity from an order's remaining to its filled quantity, so filled plus remaining still equals the quantity for every resting order |
| Matching.MatchRespectsLimit | market-mayhem/src/main/java/com/example/marketmayhem/engine/MatchingEngineService.java:197-205 | A LIMIT BUY never trades above its price and a LIMIT SELL never below it |
| Matching.NoCrossNoTrade | market-mayhem/src/main/java/com/example/marketmayhem/engine/MatchingEngineService.java:165 | With an empty counter side, or a LIMIT order that does not cross the best counter price, nothing trades and the book is untouched |
| Engine.BestCounterOrder | market-mayhem/src/main/java/com/example/marketmayhem/engine/MatchingEngineService.java:207-209 | The counter order is absent exactly when the opposite side is empty. Otherwise it is that side's first order in priority, on the opposite side, at its best price |
| Engine.ExecuteTrade | market-mayhem/src/main/java/com/example/marketmayhem/engine/MatchingEngineService.java:215-237 | With no positive quantity between the two orders there is no trade and both are unchanged. Otherwise the trade is for the smaller remaining quantity at the given price, with the BUY order as buyer and the SELL order as seller. Both orders are filled by that quantity |
| Engine.FillFront | market-mayhem/src/main/java/com/example/marketmayhem/engine/MatchingEngineService.java:220-229 | The order and the front counter order trade the smaller of their remaining quantities, at the counter order's price, and each moves that quantity from remaining to filled; with nothing to trade neither changes |
| Engine.FrontStep | market-mayhem/src/main/java/com/example/marketmayhem/engine/MatchingEngineService.java:169-177 | After the front counter order took a fill, the counter side as the matching rule sees it is the rule's next counter side: the order leaves once used up and stays at the front otherwise |
| Engine.Settle | market-mayhem/src/main/java/com/example/marketmayhem/engine/MatchingEngineService.java:172-177 | A used-up front counter order leaves the book and is FILLED. Otherwise it stays and is PARTIAL |
| Engine.TradeWithFront | market-mayhem/src/main/java/com/example/marketmayhem/engine/MatchingEngineService.java:169-182 | One trade with the front counter order happens exactly when the matching rule takes a step. It is that step's trade, and the taker (remaining and filled quantity, status) and the counter side (each order's remaining and filled quantity and status) afterwards are the rule's. The counter order's filled and remaining quantities still add up to its quantity |
| Engine.TradeWithBest | market-mayhem/src/main/java/com/example/marketmayhem/engine/MatchingEngineService.java:133-152 | One loop iteration is exactly one step of the matching rule, or none when the rule stops: the order's remaining and filled quantities and the counter side are the rule's afterwards. In the MARKET loop, stopping marks the order REJECTED |
| Engine.Step | market-mayhem/src/main/java/com/example/marketmayhem/engine/MatchingEngineService.java:132-153 | The loop invariant: trades so far followed by what the rule gives from here equals the rule's full outcome, including the order's filled quantity. The loop continues exactly while the rule does, quantity strictly decreases, and every counter order's filled and remaining quantities keep adding up |
| Engine.LimitGuard | market-mayhem/src/main/java/com/example/marketmayhem/engine/MatchingEngineService.java:165 | When the LIMIT loop's guard fails, the matching rule has stopped too |
| Engine.MatchLimit | market-mayhem/src/main/java/com/example/marketmayhem/engine/MatchingEngineService.java:165-183 | The LIMIT loop produces exactly the rule's trades, what is left of the order, its filled quantity, and what is left of the counter side, down to each order's filled and remaining quantity. The counter orders it passed are used up and FILLED, their whole quantity filled |
| Engine.RestRemainder | market-mayhem/src/main/java/com/example/marketmayhem/engine/MatchingEngineService.java:186-193 | An order with quantity left is queued at the tail of its price level. Otherwise its side is unchanged, and the other side is unchanged in both cases |
| Engine.ExecuteLimitOrder | market-mayhem/src/main/java/com/example/marketmayhem/engine/MatchingEngineService.java:161-195 | A LIMIT order trades as the rule says, with the rule's remaining and filled quantity, and then rests with what is left. The counter orders it used up are FILLED with their whole quantity filled, the rest of the counter side is the rule's, resting orders of its own side are untouched, and its status follows its fills |
| Engine.MatchMarket | market-mayhem/src/main/java/com/example/marketmayhem/engine/MatchingEngineService.java:132-153 | The MARKET loop produces exactly the rule's trades, leftovers and filled quantity, and the counter side the rule leaves, down to each order's filled quantity. The counter orders it passed are used up and FILLED. The order is REJECTED when quantity is left and FILLED when all of it traded |
| Engine.ExecuteMarketOrder | market-mayhem/src/main/java/com/example/marketmayhem/engine/MatchingEngineService.java:128-159 | A MARKET order trades as the rule says, with the rule's remaining and filled quantity, and never rests. The counter orders it used up are FILLED with their whole quantity filled and the rest of the counter side is the rule's. It ends FILLED when nothing is left and REJECTED when something is |
| Engine.StaysApart | market-mayhem/src/main/java/com/example/marketmayhem/engine/MatchingEngineService.java:165-188 | Consuming the counter side from the front, then resting a remainder that no longer crosses, keeps best bid below best ask |
| Engine.AfterMatch | market-mayhem/src/main/java/com/example/marketmayhem/engine/MatchingEngineService.java:161-195 | After a match the book is sound again. The order rests on its side exactly when it was rested, and never on the other side |
| Engine.MarketOnBook | market-mayhem/src/main/java/com/example/marketmayhem/engine/MatchingEngineService.java:128-159 | On a sound book, a MARKET order trades as the rule says, with the rule's remaining and filled quantity, and never rests. Its own side is unchanged; the counter side only loses orders from its front, each FILLED with its whole quantity filled, and the rest of it is what the rule leaves. The book stays sound |
| Engine.LimitSides | market-mayhem/src/main/java/com/example/marketmayhem/engine/MatchingEngineService.java:161-195 | On a sound book, the LIMIT execution leaves a live counter side, and a remainder that rests does not cross it. The order's filled and remaining quantities still add up to its quantity, and so do those of every order on its side |
| Engine.LimitOnBook | market-mayhem/src/main/java/com/example/marketmayhem/engine/MatchingEngineService.java:161-195 | On a sound book, a LIMIT order trades as the rule says, with the rule's remaining and filled quantity. Its own side gains the order at the tail of its level exactly when quantity is left, and is otherwise unchanged. The counter side only loses orders from its front, each FILLED with its whole quantity filled, and the rest of it is what the rule leaves. The book stays sound |
| Engine.ProcessOnBook | market-mayhem/src/main/java/com/example/marketmayhem/engine/MatchingEngineService.java:99-124 | An incoming order trades as the rule says, with the rule's remaining and filled quantity, and ends with the status the Java code gives it. Its own side gains exactly the order when it is a LIMIT order with quantity left, and is otherwise unchanged. The counter side only loses orders from its front, each FILLED with its whole quantity filled, and the rest of it is what the rule leaves. A LIMIT order without a price fails, is REJECTED and keeps its quantities, and the book stays as it was. The book stays sound |
| Engine.RemoveApart | market-mayhem/src/main/java/com/example/marketmayhem/engine/OrderBook.java:58-74 | Taking an order off a side cannot make that side cross the other |
| Engine.TakeOff | market-mayhem/src/main/java/com/example/marketmayhem/engine/MatchingEngineService.java:310-311 | Removing a priced order from a sound book keeps it sound. It reports whether the order rested there and leaves the order on neither side |
| Engine.AfterRemove | market-mayhem/src/main/java/com/example/marketmayhem/engine/MatchingEngineService.java:310-311 | A sound book with one order removed from its side is sound |
| Engine.CancelOnBook | market-mayhem/src/main/java/com/example/marketmayhem/engine/MatchingEngineService.java:310-320 | A resting order is removed and marked CANCELLED, and the result says whether it rested. An order without a price fails as the Java code's lookup does and changes nothing |
| Service.MatchingEngineService.constructor | market-mayhem/src/main/java/com/example/marketmayhem/engine/MatchingEngineService.java:35 | The service starts with no books |
| Service.MatchingEngineService.NewBook | market-mayhem/src/main/java/com/example/marketmayhem/engine/MatchingEngineService.java:96 | A missing book is created empty, filed under its symbol, and nothing else in the registry changes |
| Service.MatchingEngineService.BookOf | market-mayhem/src/main/java/com/example/marketmayhem/engine/MatchingEngineService.java:96 | Finds or creates the book for the order's symbol. Existing books and what the order would meet are unchanged |
| Service.MatchingEngineService.ProcessOrder | market-mayhem/src/main/java/com/example/marketmayhem/engine/MatchingEngineService.java:93-126 | Processing registers the order's symbol and matches the order on that book as `ProcessOnBook` says, including the order's remaining and filled quantity, what happens to its own side, and the counter orders used up or left at the front. It returns the trades and the order as a `MatchResult`, or the failure of a priceless LIMIT order. No resting order changes except the counter orders the order met; other books keep their sides and every book stays sound |
| Service.MatchingEngineService.ProcessIn | market-mayhem/src/main/java/com/example/marketmayhem/engine/MatchingEngineService.java:98-125 | Matching on the order's registered book gives the outcome `ProcessOnBook` states, filled quantities included, and wraps the trades in a `MatchResult`. The registry and the other books keep their sides |
| Service.MatchingEngineService.MatchIn | market-mayhem/src/main/java/com/example/marketmayhem/engine/MatchingEngineService.java:99-124 | `ProcessOnBook` run on the registered book, with all of its outcome, filled-quantity, own-side and counter-side facts. The registry stays sound and the other books are left alone |
| Service.MatchingEngineService.CancelOrder | market-mayhem/src/main/java/com/example/marketmayhem/engine/MatchingEngineService.java:293-321 | An order not found, not NEW or PARTIAL, without a book or without a price is left unchanged and every book keeps its sides. A priceless one fails as the book's lookup does. Otherwise the order's side becomes `Remove` of the old side and the other side is unchanged. A resting order is CANCELLED, and the result is true exactly when it rested. Other books keep their sides |
| Service.MatchingEngineService.CancelIn | market-mayhem/src/main/java/com/example/marketmayhem/engine/MatchingEngineService.java:310-320 | `CancelOnBook` run on the registered book: a priceless order leaves both sides as they were, a priced one turns its side into `Remove` of the old side and keeps the other. The registry stays sound and the other books are left alone |
| Service.MatchingEngineService.ClearAllOrderBooks | market-mayhem/src/main/java/com/example/marketmayhem/engine/MatchingEngineService.java:53-56 | The registry becomes empty and no order rests anywhere |
| Service.MatchingEngineService.ClearAllBooks | market-mayhem/src/main/java/com/example/marketmayhem/engine/MatchingEngineService.java:345-349 | Every book is cleared on both sides, then the registry becomes empty |
| Pnl.Credit | market-mayhem/src/main/java/com/example/marketmayhem/service/LeaderboardService.java:31-36 | A player's P&L moves by the delta, starting from zero for a new player. No other player's P&L moves |
| Pnl.SettleTrade | market-mayhem/src/main/java/com/example/marketmayhem/engine/MatchingEngineService.java:265-270 | The buyer's P&L drops by price times quantity and the seller's rises by it. A self-trade nets to zero and nobody else's P&L moves |
| Pnl.CostWithinLimit | market-mayhem/src/main/java/com/example/marketmayhem/engine/MatchingEngineService.java:266 | Trades all priced within a buy limit cost at most limit times the quantity. For a sell limit they bring at least that |
| Pnl.MatchCostWithinLimit | market-mayhem/src/main/java/com/example/marketmayhem/engine/MatchingEngineService.java:265-270 | Over one match, a LIMIT BUY pays at most its limit per unit filled and a LIMIT SELL receives at least its limit per unit |
| Risk.NatToString | market-mayhem/src/main/java/com/example/marketmayhem/risk/MaxOrderSizeRule.java:21 | The decimal rendering of a natural number is a non-empty string of digits |
| Risk.NatToStringRoundTrip | market-mayhem/src/main/java/com/example/marketmayhem/risk/MaxOrderSizeRule.java:21 | Reading back the decimal rendering of a natural number gives the number |
| Risk.IntToStringRoundTrip | market-mayhem/src/main/java/com/example/marketmayhem/risk/MaxOrderSizeRule.java:21 | Reading back `%d` of any integer, negative ones included, gives the integer |
| Risk.ValidateMaxOrderSize | market-mayhem/src/main/java/com/example/marketmayhem/risk/MaxOrderSizeRule.java:17-25 | A MAX_ORDER_SIZE violation is reported exactly when the quantity exceeds the maximum |
| Risk.MaxOrderSizeDetail | market-mayhem/src/main/java/com/example/marketmayhem/risk/MaxOrderSizeRule.java:18-22 | The violation message contains both the quantity and the maximum, each readable back |
| Risk.MaxOrderSizeBoundary | market-mayhem/src/main/java/com/example/marketmayhem/risk/MaxOrderSizeRule.java:13-25 | With the default maximum of 50000, an order of 50000 passes and one of 50001 is refused |
| Risk.ValidateRestrictedSymbol | market-mayhem/src/main/java/com/example/marketmayhem/risk/RestrictedSymbolRule.java:17-25 | A RESTRICTED_SYMBOL violation naming the symbol is reported exactly when the symbol is on the list |
| Risk.RestrictedSymbolCaseSensitive | market-mayhem/src/main/java/com/example/marketmayhem/risk/RestrictedSymbolRule.java:13-25 | With the default list, "GME" is refused and "gme" passes: the comparison is exact |
| Scores.Wrap32 | market-mayhem/src/main/java/com/example/marketmayhem/model/PlayerScore.java:17-24 | Java `Integer` arithmetic: the result is a 32-bit value congruent to the input modulo 2^32, and equal to it when it already fits |
| Scores.IncrementWraps | market-mayhem/src/main/java/com/example/marketmayhem/model/PlayerScore.java:50-56 | Incrementing the largest 32-bit value wraps to the smallest |
| Scores.PlayerScore.constructor | market-mayhem/src/main/java/com/example/marketmayhem/model/PlayerScore.java:17-31 | A new score has zero matches, zero P&L and zero violations |
| Scores.PlayerScore.AddPnl | market-mayhem/src/main/java/com/example/marketmayhem/model/PlayerScore.java:46-48 | The P&L grows by the amount |
| Scores.PlayerScore.IncrementViolations | market-mayhem/src/main/java/com/example/marketmayhem/model/PlayerScore.java:50-52 | The violation count goes up by one, with 32-bit wrap-around |
| Scores.PlayerScore.IncrementMatches | market-mayhem/src/main/java/com/example/marketmayhem/model/PlayerScore.java:54-56 | The match count goes up by one, with 32-bit wrap-around |

## Left out

- Concurrency is not modelled: the `StampedLock` of each book, the `ConcurrentHashMap` of books, and the transactions. Every operation is modelled as one atomic step.
- Persistence, id assignment and `ensurePersisted` are not modelled. Order ids are fixed when an `Order` is built. The repository lookup in `cancelOrder` becomes the parameter `found` of `CancelOrder`.
- `processTrade` is not modelled: trade persistence, the trade broadcasts, and the chained P&L update through the repository. The P&L rule of `updatePlayerPnL` is modelled on a ledger map by `Pnl.SettleTrade`, which stands in for the leaderboard's per-player `PlayerScore` rows.
- Book-update broadcasts, logging and timestamps (`createdAt`, `executedAt`, the snapshot's time) are not modelled.
- `getBookSnapshot` and `getBookStatistics` of the service are not modelled; they only forward to the book's `Snapshot`, `OrderCount`, `Spread` and `MidPrice`, which are modelled.
- Prices are whole ticks of 0.0001. `BigDecimal` values with more decimals, and the distinction between scales, are not modelled.
- Books.OrderBook.MidPrice: rounds half-up to whole ticks. The Java code rounds to the scale of the sum of the two prices, which is coarser when both prices were written with fewer decimals.
- Orders.Order.AddFill: quantities are unbounded; the 64-bit `Long` wrap-around of filled and remaining quantity is not modelled.
- Scores.PlayerScore.AddPnl: P&L is an unbounded integer number of ticks, standing in for `BigDecimal` with scale 4.
- Books.OrderBook.AddOrder: requires a priced order. A priceless order reaching `addOrder` throws in the Java code; that path is modelled one level up, by `Engine.ProcessOnBook`.
- Books.OrderBook.RemoveOrder: requires a priced order. The priceless path is modelled by `Engine.CancelOnBook`.
- Books.OrderBook.CanCross: requires a priced order, for the same reason.
- Engine.ExecuteTrade: requires the two orders to be different objects. The engine never matches an order against itself, because an incoming order does not rest on the counter side.
- Service.MatchingEngineService.ProcessOrder: requires the incoming order to be NEW, not resting in any book, and with filled and remaining quantities adding up to its quantity. This is how the order service calls it, with an order fresh from the constructor, which gives it exactly that. Re-submitting an order that already rests is not modelled.
- Engine.TradeWithBest: the two loops share one step method, parameterised by the loop kind (`marketLoop`). In the Java code they are two separate loops. Their only difference in effect is that the MARKET loop marks the order REJECTED when it stops. The LIMIT loop also sets a partly filled counter order to PARTIAL, which the model keeps, but `addFill` has already given it that status.
