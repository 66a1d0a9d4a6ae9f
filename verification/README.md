# Delta Exchange market-making bots, modelled in Dafny

This project models the decision logic of the Delta Exchange trading bots: a
supervisor (`BaseMarketMaker`), its unhedged variant, and the older
standalone `MarketMaker`. Each loop iteration produces a wanted ladder of
quotes. The bot formats the ladder and merges equal price levels, diffs it
against the open orders level by level (`calculate_orders_diff`), and
groups cancels and creates into edits (`get_orders`). It then sends the
result in batches and recovers from typed failures. The supporting pieces
are modelled too:

- the streaming client's caches (order books, positions, mark and spot
  prices), its callback table and its reconnect rule;
- the REST client's retry loops and guards;
- the tick-rounding helpers;
- the margin helpers and the unhedged bot's impact price and margin top-up.

Prices, sizes and notionals are exact rationals (`real`). The source computes
mostly in `Decimal`; the few steps it takes in binary floating point are
modelled as exact too, and are listed under "## Left out". Python's `int()`
is `DeltaUtility.Trunc`, which truncates toward zero. Python's `Decimal`
remainder is `DeltaUtility.Rem`, whose sign follows the dividend. HTTP
replies, clocks, random draws and the venue's answers become parameters: a
list of status codes, a `now`, a sequence of draws.

Module layout (one file per module):

| module | file | models |
|---|---|---|
| `Orders`, `PositionRecords`, `Wrappers` | orders.dfy, positions.dfy, wrappers.dfy | order, level and position records; `Option` |
| `DeltaUtility`, `PriceRounding` | delta_utility.dfy, price_rounding.dfy | the two tick-rounding helpers and the order/cancel record builders |
| `PriceSort` | price_sort.dfy | the price sort of the open orders |
| `OrderPrep` | order_prep.dfy | `merge_levels`, `get_top_orders_by_size`, `create_order_format` |
| `LadderDiff` | ladder_diff.dfy | `diff` and `calculate_orders_diff` of both bots, as a trace of moves |
| `EditAggregation` | edit_aggregation.dfy | `notional` and `get_orders` |
| `Converge` | converge.dfy | `converge_orders` and `market_trend` of the supervisor |
| `LegacyBot` | legacy_bot.dfy | `converge_orders` of the standalone bot |
| `Batching` | batching.dfy | `slice_orders` and the batch calls |
| `Failures` | failures.dfy | typed errors, the classifier, the request wrapper, the run loop's recovery |
| `RestGateway` | rest_gateway.dfy | retry loops, token and history guards, ticker, position lookup, close position |
| `StreamClient` | stream_client.dfy | message dispatch, caches, depth and price reads, callbacks, reconnect, market orders |
| `Margin`, `Unhedged` | margin.dfy, unhedged.dfy | margin helpers; impact price, ladder generation, auto top-up |
| `Seqs`, `RealArith` | seqs.dfy, real_arith.dfy | subsequences, flag-driven filters, sums; one-step real inequalities |

When the socket closes and the client has not exited, `__on_close` calls
`reconnect`. That calls `disconnect`, which marks the client exited and
clears the callback table, and then `connect`, which re-subscribes only the
channel list given to the constructor. A `mark_price` or `spot_price`
subscription made later is therefore lost on reconnect
(`StreamClient.OnCloseMeaning`).

## Model

| member | source | states |
|---|---|---|
| LadderDiff.Diff | market_maker/base.py:137-154 | an empty live size (current copy only) is its own verdict; a size move beyond its threshold with the price within its own (strictly within for the standalone copy) is a size move; otherwise a price move beyond its threshold is a price move |
| LadderDiff.ChangeAgainstThresholds | market_maker/base.py:142-149 | the percentage changes compared with the thresholds are exactly the threshold predicates the verdicts are stated in |
| LadderDiff.Step | market_maker/base.py:174-197 | a size move replaces the level; a price move creates the wanted level iff it is the better quote and otherwise drops the live order; anything else keeps both |
| LadderDiff.TraceVisitsLive | market_maker/base.py:174-200 | the merge visits every live order from its start position exactly once, in order |
| LadderDiff.TraceWantedPrefix | market_maker/base.py:174-204 | the wanted levels visited are the next ones of the wanted ladder, in order |
| LadderDiff.TraceWantedCount | market_maker/base.py:174-204 | the merge visits all remaining wanted levels up to the level cap, and no more |
| LadderDiff.ProjectionsOrdered | market_maker/base.py:174-204 | deletes are an in-order subsequence of the visited live orders, and creates of the visited wanted levels |
| LadderDiff.ProjectionsSplit | market_maker/base.py:174-204 | the visited live orders split into kept and deleted; each visited wanted level is kept or created |
| LadderDiff.DiffAccountsForEveryLiveOrder | market_maker/base.py:156-206 | every live order is either kept or deleted, exactly once, and deletes keep the live ladder's order |
| LadderDiff.DiffRespectsLevelCap | market_maker/base.py:174-204 | creates are an order-preserving subsequence of the wanted ladder, and creates plus kept levels equal min(wanted, num_levels) |
| LadderDiff.TraceMovesJustified | market_maker/base.py:174-204 | every move of the merge is backed by the verdict of `diff` on the pair it looks at, or by one list running out |
| LadderDiff.IdenticalLaddersNeedNoChange | market_maker/base.py:156-206 | a ladder diffed against itself (within the cap, thresholds not negative) yields no creates and no deletes |
| LadderScenarios.BlankStateCreatesEverything | test/calculate_orders_diff_test.py:23-45 | with no live orders both wanted levels are created and nothing is deleted |
| LadderScenarios.ResizedLevelIsReplaced | test/calculate_orders_diff_test.py:49-77 | the resized level is replaced, the unchanged one kept, the extra level created |
| LadderScenarios.SameLevelsNeedNoChange | test/calculate_orders_diff_test.py:82-102 | identical bid ladders need no create and no delete |
| LadderScenarios.EatenLevelIsDeleted | test/calculate_orders_diff_test.py:106-128 | the filled-away best ask is deleted and the rest kept |
| LadderScenarios.InsertedLevelIsCreated | test/calculate_orders_diff_test.py:133-155 | a new level between two live ones is created and nothing is deleted |
| LadderScenarios.LegacyMasksSizeMoveAtPriceThreshold | market_maker/market_maker.py:87-92 | at a price move of exactly the threshold the standalone copy keeps a level whose size moved 50%, while the supervisor's copy replaces it |
| PriceSort.SortByPrice | market_maker/base.py:214-219 | the sort is a permutation of the open orders |
| PriceSort.SortOrdered | market_maker/base.py:214-219 | asks come out ascending and bids descending by price |
| PriceSort.SortOrderedIsIdentity | market_maker/base.py:214-219 | an already ordered ladder comes out unchanged |
| PriceSort.InsertOrdered | market_maker/base.py:214-219 | inserting into an ordered ladder keeps it ordered |
| Converge.OfSideMeaning | market_maker/base.py:214-218 | the side filter keeps exactly the orders of that side, in order, and the two sides together are all open orders |
| Converge.PopCount | market_maker/base.py:225-242 | the `pop(0)` loop takes live orders from the head exactly while they lie beyond an active bound, and nothing without one |
| Converge.PopTakesAllBeyond | market_maker/base.py:225-242 | on a ladder sorted best first, no live order beyond the bound survives the popping |
| Converge.WithinMeaning | market_maker/base.py:233-245 | the wanted filter keeps, in order, exactly the levels not beyond an active bound |
| Converge.SidePopsBeyondBound | market_maker/base.py:225-242 | under an active bound the popped orders are exactly the live orders beyond it |
| Converge.SideSubmitsWithinBound | market_maker/base.py:225-269 | under an active bound no create or edit of the side is priced beyond it |
| Converge.CreatesWithinBound | market_maker/base.py:233-257 | the diff against the filtered wanted ladder creates nothing beyond the bound |
| Converge.SideAccountsForEveryOrder | market_maker/base.py:225-281 | every live order of a side is popped, kept, absorbed into an edit or cancelled, exactly once |
| Converge.ConvergeAccountsForEveryOrder | market_maker/base.py:208-281 | every open order is cancelled, absorbed into an edit or kept, exactly once |
| Converge.BestPriceIsBest | market_maker/base.py:294-304 | the best price is one of the prices and no worse than any of them |
| Converge.MarketTrend | market_maker/base.py:294-311 | the trend is +1, -1 or 0 |
| Converge.MarketTrendMeaning | market_maker/base.py:294-311 | the trend is +1 iff some new price beats every replaced one, and -1 iff some replaced price beats every new one |
| Converge.TrendOfMeaning | market_maker/base.py:258-265 | the trend reads -1 iff the market fell on the side it is read from: the ask side when it has both creates and deletes, else the bid side |
| Converge.EditOrderFollowsTrend | market_maker/base.py:271-278 | bid edits go before ask edits exactly when the trend is down |
| Converge.Submissions | market_maker/base.py:287-292 | cancel, edit and create batches are sent in that order, each iff its list is nonempty |
| EditAggregation.NotionalMeaning | market_maker/base.py:105-110 | a notional is zero without a size or a price; at a nonzero price the size comes back from it (times the price for an inverse contract, over it for a linear one); at a positive price it has the size's sign; notionals of two sizes at one price add up |
| EditAggregation.NotionalNonNegative | market_maker/base.py:105-110 | a non-negative size at a positive price has a non-negative notional |
| EditAggregation.DecisionsExhaust | market_maker/base.py:334-350 | the loop pops at most every delete and edits at most every create, and stops only when one list is used up |
| EditAggregation.DecisionsMeaning | market_maker/base.py:334-347 | each delete is merged into an edit iff the head create's notional fits within that delete's notional plus the carried budget |
| EditAggregation.DecisionsBudget | market_maker/base.py:334-347 | with non-negative delete notionals, the edited creates never bring in more notional than the deletes popped |
| EditAggregation.EditOf | market_maker/base.py:318-325 | an edit takes its id from the delete and product, price and size from the create |
| EditAggregation.GetOrders | market_maker/base.py:313-351 | edits plus remaining deletes are all the deletes; edits plus remaining creates are all the creates; the leftover creates are the tail; edit k pairs create k with absorbed delete k |
| EditAggregation.GetOrdersAccountsForDeletes | market_maker/base.py:334-350 | every delete is absorbed or still deleted, and both lists keep the deletes' order |
| EditAggregation.GetOrdersPricesFromCreates | market_maker/base.py:318-349 | every submitted price, in an edit or a create, is the price of a create |
| EditAggregation.GetOrdersBudget | market_maker/base.py:326-347 | from an empty budget the edits never bring in more notional than the deletes popped |
| EditAggregation.GetOrdersHeadDecision | market_maker/base.py:334-345 | the first delete becomes an edit carrying the first create when the create's notional fits in it |
| OrderPrep.MergeLevels | market_maker/base.py:471-484 | the result is the run-by-run merge: each maximal run of adjacent levels at one price becomes one level carrying the run's total size; so it has one level per run, keeps the total size, and its prices are the ladder's with each run collapsed to one |
| OrderPrep.MergeSnoc | market_maker/base.py:474-482 | one more level at the end is absorbed into the last merged level at its price, or appended at a new price |
| OrderPrep.MergeTotal | market_maker/base.py:471-484 | the run-by-run merge keeps the total size |
| OrderPrep.MergePrices | market_maker/base.py:471-484 | the run-by-run merge's prices are the ladder's prices with each run of equal prices collapsed to one |
| OrderPrep.CollapseMeaning | market_maker/base.py:471-484 | the collapsed prices keep the order of first appearance, the same set of prices, no equal neighbours, and the last price |
| OrderPrep.MergedPrices | market_maker/base.py:471-484 | the merged ladder's prices are an in-order subsequence with the same set of prices and no two equal neighbours |
| OrderPrep.GetTopOrdersBySize | market_maker/base.py:418-440 | equals the greedy split `Greedy`: level k keeps its price and takes the smaller of what it holds and what may still be taken (capped at size over `min_levels` when enforced); it stops only when the size is used up or the ladder ends; remaining is the rest of each split level, in order, then the levels not reached; totals are kept; the selection fits the size and, without the cap, is min(size, total) |
| OrderPrep.TakeGreedily | market_maker/base.py:421-440 | the loop computes exactly the level-by-level greedy selection and leftovers that `Greedy` defines |
| OrderPrep.GreedyAt | market_maker/base.py:424-436 | the k-th selected level was reached with a positive amount still to take, and takes the smaller of its size and that amount's allowance |
| OrderPrep.GreedyTotal | market_maker/base.py:421-440 | selection, split rests and unreached levels together hold the ladder's total |
| OrderPrep.FormatSideMeaning | market_maker/base.py:354-392 | exactly the levels of at least one contract are kept, in order; each becomes a limit order of a whole positive number of contracts on the tick grid, within one tick of its scaled price (bids floored, asks ceiled) |
| DeltaUtility.Trunc | clients/delta.py:236 | Python's `int()` truncates toward zero: the result is within one of its argument, on the zero side |
| DeltaUtility.Rem | utils/utility.py:7 | the Decimal remainder has the dividend's sign and is below the tick in magnitude |
| DeltaUtility.RemZeroIffMultiple | market_maker/delta/utility.py:19-21 | the remainder is zero exactly on whole multiples of the tick |
| DeltaUtility.RoundByTickSizeOnGrid | market_maker/delta/utility.py:18-27 | every mode lands on the tick grid, and exact multiples are returned unchanged |
| DeltaUtility.RoundFloorBounds | market_maker/delta/utility.py:26-27 | floor gives the largest tick multiple not above a non-negative price |
| DeltaUtility.RoundCeilBounds | market_maker/delta/utility.py:24-25 | ceil gives the next tick multiple strictly above a price off the grid |
| DeltaUtility.RoundNearestIsNearest | market_maker/delta/utility.py:22-27 | without a mode the result is the nearest tick multiple, halves going up |
| DeltaUtility.RoundByTickSizeIdempotent | market_maker/delta/utility.py:18-27 | rounding a rounded price again, in any mode, changes nothing |
| DeltaUtility.OrderConvertFormat | market_maker/delta/utility.py:7-15 | the record is an unacknowledged limit order with the given price, size, side and product |
| DeltaUtility.CancelOrderFormat | market_maker/delta/utility.py:38-43 | a cancel record keeps exactly the order's id and product id |
| PriceRounding.RoundPriceOnGrid | utils/utility.py:4-15 | before the decimal-places step the result is on the tick grid |
| PriceRounding.RoundPriceFloorBounds | utils/utility.py:14-15 | floor gives a tick multiple not above the number and within one tick of it |
| PriceRounding.RoundPriceNearest | utils/utility.py:10-15 | without a mode the result is the nearest tick multiple, and an exact multiple is kept |
| PriceRounding.CeilOnExactMultipleAddsTick | utils/utility.py:8-13 | as written, ceil on an exact multiple moves one whole tick up |
| PriceRounding.AgreesWithVenueRounding | utils/utility.py:4-15 | the two rounding helpers agree everywhere except ceil on an exact multiple |
| PriceRounding.CeilOnExactMultipleExample | utils/utility.py:8-13 | 10 with tick 0.5 and ceil gives 10.5 here and 10 in the venue helper |
| LegacyBot.TickerFilterMeaning | market_maker/market_maker.py:168-172 | the ticker filter keeps, in order, exactly the wanted orders on the tradeable side of the ticker |
| LegacyBot.EmptyBookFiltersNothing | market_maker/market_maker.py:165-172 | an empty ask book drops no wanted bid; an empty bid book drops no wanted ask at a non-negative price |
| LegacyBot.LegacySideMeaning | market_maker/market_maker.py:174-184 | a side's creates come in order from its filtered wanted ladder within the level cap; its deletes come in order from its live orders |
| LegacyBot.LegacyConvergeMeaning | market_maker/market_maker.py:164-186 | creates list the ask side's then the bid side's, each in order from its own wanted ladder and tradeable against the ticker |
| LegacyBot.LegacyAccountsForEveryOrder | market_maker/market_maker.py:144-187 | every open order is deleted or kept by its side's merge, exactly once |
| LegacyBot.CancelRecords | market_maker/market_maker.py:192-194 | the cancel list carries each deleted order's id and product, in order |
| LegacyBot.LegacySubmissionsMeaning | market_maker/market_maker.py:192-196 | cancels go before creates, each batch iff its list is nonempty, and the cancel batch names exactly the deleted orders |
| Batching.SliceOrdersMeaning | clients/delta.py:500-502 | with a positive size the chunks concatenate back to the input, each is nonempty and at most size long, and only the last may be short |
| Batching.BatchesMeaning | clients/delta.py:471-498 | every order is sent exactly once, in order, in calls of at most five orders (twenty edits); the cancel calls together carry the cancel record of each order, in order |
| Batching.SliceByZero | clients/delta.py:500-502 | a chunk size of zero yields no chunk at all |
| Failures.StatusCodeGroups | custom_exceptions.py:5-110 | the rejection kinds and nothing else carry 400; the credential kinds carry 401, the overload kinds 503, and each other code belongs to one kind |
| Failures.Raise | custom_exceptions.py:5-110 | a raised error keeps its kind and client, and carries 400 iff it is a rejection |
| Failures.ClassifierCodes | utils/decorators.py:9-36 | the error's code matches the HTTP status only for 400, 401, 429, 503 and 1000; 422 becomes 400; 500-504 become 503; anything else is unknown; message-specific kinds need a 400 with that message |
| Failures.WrapMeaning | utils/decorators.py:39-58 | results and non-HTTP exceptions pass unchanged; every HTTP error surfaces as a typed error, and every 400 as a bad request |
| Failures.WrapIntendedMeaning | utils/decorators.py:43-56 | the intended wrapper agrees with the one as written except on a 400 whose message names a known kind, where it raises that kind |
| Failures.WrapLosesMessageExample | utils/decorators.py:43-56 | a 400 reporting insufficient margin or an invalid order surfaces as a bad request as written, and as its own kind when intended |
| Failures.RecoverPauses | market_maker/base.py:502-548 | trading pauses exactly for credential, margin, bad-request and unknown errors and anything the chain does not name; the pause repeats until done only for the last group |
| Failures.WrappedHttpRecovery | market_maker/base.py:502-535 | an HTTP error through the wrapper is handled by its status alone, and never takes the margin, invalid-order or disruption branch |
| RestGateway.ClientErrorRange | market_maker/delta/rest_client.py:40 | the 4xx test holds exactly for statuses 400 to 499 |
| RestGateway.ReactionMeaning | market_maker/delta/rest_client.py:38-41 | 401 re-authenticates, another 4xx sleeps two seconds, anything else is retried at once |
| RestGateway.AttemptsMeaning | market_maker/delta/rest_client.py:29-43 | the loop ends answered by a 200, gives up after the counter runs out with the last status, or runs out of replies, and reacts to each failure it saw |
| RestGateway.CountedExchange | market_maker/delta/rest_client.py:28-43 | a counted call sends at most `retry_count` requests, is answered iff a 200 comes among them (the first one), and otherwise gives up reporting the last status |
| RestGateway.UncountedExchange | market_maker/delta/rest_client.py:144-159 | a call that never counts down never gives up: it is answered by the first 200 and keeps retrying until then |
| RestGateway.NoAttemptWithoutCount | market_maker/delta/rest_client.py:29 | with a counter at zero or below no request is sent |
| RestGateway.UncountedRetriesExample | market_maker/delta/rest_client.py:144-159 | four 503 replies against a counter of three: the counted loop gives up after three, the uncounted one sends the fourth |
| RestGateway.CallMeaning | market_maker/delta/rest_client.py:45-62 | the token guard refuses before any request exactly when a token is needed and missing, and only counted endpoints can give up |
| RestGateway.PriceHistoryGuard | market_maker/delta/rest_client.py:181-209 | a history request of 500 or more points is refused before any request is sent; a smaller one queries a window that ends now and spans fewer than 500 bars of the resolution |
| RestGateway.GetTicker | market_maker/delta/rest_client.py:136-142 | the best bid is from the bid book when it is nonempty and 0 when it is empty; the best ask exists iff the ask book is nonempty and is from it |
| RestGateway.FindPosition | market_maker/delta/rest_client.py:270-293 | the result is absent iff no position is on the product, and is otherwise the first one on it |
| RestGateway.ClosePositionFlattens | market_maker/delta/rest_client.py:232-268 | an order is sent iff a position is found, and it exactly flattens that position |
| StreamClient.FindBook | clients/delta.py:214-219 | the index found is the first book of the symbol; none is found iff no book has it |
| StreamClient.OrderbookUpdateMeaning | clients/delta.py:212-229 | an update rewrites the first book of its symbol or appends one (sides swapped on first insertion), keeps books unique per symbol, and leaves other books unchanged |
| StreamClient.RouteOf | clients/delta.py:124-146 | each message type reaches exactly its own handler |
| StreamClient.ApplyFrames | clients/delta.py:124-146 | a handler changes only its own cache (positions only with a nonzero tick) and never the callbacks, the exit flag or the connection |
| StreamClient.OnMessageNotifies | clients/delta.py:124-134 | a trading notification reaches the registered callback; no other message reaches any callback |
| StreamClient.OnMessageCaches | clients/delta.py:124-146 | only the four cached message types change state, each only its own cache |
| StreamClient.OnMessageKeepsBooksUnique | clients/delta.py:124-146 | no message makes a second book for a symbol |
| StreamClient.PositionUpdateMeaning | clients/delta.py:231-241 | the stored position has the truncated size, an entry on the tick grid, and the margin and liquidation price of the message; other products are untouched |
| StreamClient.MarketDepthSource | clients/delta.py:283-308 | the cache answers iff connected with a book of the symbol younger than two seconds, and the first such book is read |
| StreamClient.MarketDepthContents | clients/delta.py:283-308 | a cached answer's asks are all the ask quotes, ascending; its bids are exactly the bid quotes above one tick, descending |
| StreamClient.PriceFeedRoundTrip | clients/delta.py:243-251 | a price stored by a mark or spot message is read back while connected and younger than 15 seconds, and otherwise the read goes to REST |
| StreamClient.PriceCacheMeaning | clients/delta.py:310-320 | a cached read happens iff connected with a fresh entry, and returns the stored value |
| StreamClient.CallbackTableMeaning | clients/delta.py:192-198 | the last registration of a channel wins; unsubscribing removes that channel only; disconnecting clears the table and marks the client as exited |
| StreamClient.SubscribeAll | clients/delta.py:174-187 | connecting registers every configured channel with the callback and keeps every other registration |
| StreamClient.OnCloseMeaning | clients/delta.py:119-202 | a reconnect is tried iff the client had not exited; afterwards the table holds exactly the configured channels, or nothing when the connection timed out |
| StreamClient.PositionOverRestMeaning | clients/delta.py:365-383 | no reply or a size truncating to 0 gives the flat record with no prices and zero margin; otherwise the size is the reply's truncated toward zero, the entry price is on the tick grid, and margin and liquidation price are the reply's |
| StreamClient.FetchPositionMeaning | clients/delta.py:322-330 | `position` returns the record fetched over REST and stores it, stamped now, for that product only, leaving every other cache untouched |
| StreamClient.MarketOrderMeaning | clients/delta.py:433-442 | a nonzero size sends one market order for exactly that size, bought iff positive; an order of minus a position is the close-position order |
| StreamClient.SendMarketOrderMeaning | clients/delta.py:433-451 | nothing is sent iff the size is zero; the call returns iff the venue filled the whole order, which then moves the position by exactly the size; any unfilled part raises the 400-coded `PlaceOrderError` for Delta |
| PositionRecords.GetPositionMeaning | utils/utility.py:22-27 | with no arguments the record is flat with no prices; any argument given is kept |
| Margin.LinearMarginMeaning | utils/margin_helper.py:12-16 | a linear position needs maintenance margin on its entry notional plus its loss between entry and liquidation |
| Margin.InverseMarginMeaning | utils/margin_helper.py:7-11 | an inverse margin is defined iff entry, liquidation and adjusted entry are nonzero, and is then maintenance on the entry value plus the loss in coin |
| Margin.FlatNeedsNoMargin | utils/margin_helper.py:6-16 | a flat position needs no margin wherever the formula is defined |
| Margin.FundingDampenerMeaning | utils/margin_helper.py:19-20 | the dampener zeroes the band of width 0.05 and shifts anything outside it 0.05 towards zero; it is odd and never grows the magnitude |
| Margin.PremiumFromFundingMeaning | utils/margin_helper.py:23-29 | the premium has the funding's sign and 0.05 more magnitude, and the dampener turns it back into the funding |
| Unhedged.FillsFromBook | market_maker/unhedged.py:37-44 | the fills take head levels in order, at their prices, none more than its level holds |
| Unhedged.FillsTotal | market_maker/unhedged.py:37-44 | the fills add up to the asked size or the whole book, whichever is smaller |
| Unhedged.ImpactSquareoffDefined | market_maker/unhedged.py:45-48 | the average fill price is defined iff something fills |
| Unhedged.AverageBetween | market_maker/unhedged.py:45-48 | a size-weighted average lies between the lowest and highest price averaged |
| Unhedged.ImpactSquareoffBetween | market_maker/unhedged.py:37-48 | the impact price lies between the lowest and highest price of the levels consumed |
| Unhedged.GenerateOrdersMeaning | market_maker/unhedged.py:110-124 | `numLevels` levels a side, bids falling and asks rising, all bids below spot below all asks, mirrored around spot, sizes within the draw bounds |
| Unhedged.DeltaPositionMeaning | market_maker/base.py:122-132 | with a positive contract size the reported size is the size in contracts times the contract size, the rest is carried over, and the notional step raises only for an open inverse position entered at 0; a zero contract size raises |
| Unhedged.ReportedSize | market_maker/base.py:124-129 | rounding a whole number of contracts times the contract size to the contract-size grid changes nothing, and the result is zero only for zero contracts |
| Unhedged.ContractSizeIsContractValue | clients/delta.py:86-87 | the client's contract size, the contract value rounded to its own grid, is the contract value |
| Unhedged.TargetLiquidationMeaning | market_maker/unhedged.py:61-66 | the target liquidation price is on the safe side of the mark, exactly the threshold away in percent |
| Unhedged.SettleMeaning | market_maker/unhedged.py:75-86 | margin is added iff the target needs more than is posted and the funds exceed the gap, by exactly the gap; a gap the funds do not exceed is reported |
| Unhedged.AutoTopUpFlat | market_maker/unhedged.py:53-55 | a flat position, the default record included, is never topped up; a zero contract size raises |
| Unhedged.TopUpAddsWhenNear | market_maker/unhedged.py:55-82 | margin is added only to an open position whose liquidation price is nearer the mark than the threshold, and only a positive amount the funds exceed |
| Unhedged.TopUpAddsToTarget | market_maker/unhedged.py:61-82 | the amount added brings the posted margin to exactly the margin that puts liquidation at the target |
| Unhedged.TopUpFails | market_maker/unhedged.py:55-86 | a shortfall is reported only for a positive gap the funds do not cover; the check raises only for an open position missing a price, a zero mark, or an undefined inverse margin |
| Unhedged.AutoTopUpScaledOnceMeaning | market_maker/unhedged.py:53-86 | with the size scaled once, margin is added only to an open position nearer liquidation than the threshold, a positive amount below the funds, exactly what brings the posted margin to the margin of size times contract size at the target |
| Unhedged.DoubleScalingExample | market_maker/unhedged.py:67-69 | a 1000-contract long of 0.001 coin each near liquidation is not topped up as written, and gets 650 when scaled once |

## Left out

- Transport, threads, timers, websockets, HMAC signing, authentication requests, logging, e-mail and alert hooks, and configuration loading are left out. Replies, the clock and random draws are parameters.
- `get_top_orders_by_notional` is not modelled. It repeats `get_top_orders_by_size` on notionals, and the bots never call it.
- `funds`, `available_funds`, `get_open_orders`, the stop-order calls and the remaining one-line REST pass-throughs are left out. They only forward to the venue.
- `get_availableMargin`'s balance arithmetic is left out; only its retry behaviour is modelled (`RestGateway.UncountedExchange`).
- PriceRounding.RoundPriceOnGrid: the final `round(number, decimals)` step of `round_price_by_tick_size` is not modelled. It depends on the float representation of the tick size.
- PriceSort.SortByPrice: the sort is stated as an ordered permutation. Python's stability among equal prices is not stated.
- After `connect`, `reconnect` calls `self.stop_trading` (clients/delta.py:200-202). Neither `Delta` nor `BaseClient` (clients/base.py) defines that method, so the call would fail in the socket's callback thread. That last step is not modelled: `StreamClient.OnClose` ends after the re-subscription.
- StreamClient.SubscribeAll: the connect loop's polling and timeout are reduced to a boolean `connectedInTime`.
- StreamClient.MarketDepthSource: requires a nonzero tick, because the rounding of quotes divides by it. The source raises in that case.
- StreamClient.MarketDepthContents: requires a nonzero tick, for the same reason.
- StreamClient.PositionUpdateMeaning: requires a nonzero tick, for the same reason.
- A missing dictionary key in a venue message (a Python `KeyError`) is not modelled. Messages are records with every field present.
- `apply_risk_limits` is the identity in both bots, so it is not modelled.
- Quotes built from the cached order book carry the client's product id. The symbol-to-product mapping of the venue is not modelled.
- LadderDiff.Diff: requires a nonzero live price (and a nonzero live size in the standalone copy). The source divides by them and would raise.
- LadderDiff.DiffAccountsForEveryLiveOrder: requires every live order to meet `Diff`'s precondition, which is stronger than the source, where only the pairs actually compared must.
- LegacyBot.LegacySideMeaning: requires every open order to meet `Diff`'s precondition, which is stronger than the source, as above.
- RestGateway.GetTicker: states that a nonempty book's best price is a member of the book, not that it is the book's head.
- Unhedged.TopUpAddsToTarget: is stated over `TopUpDecision`, which takes the position as `delta_position` reports it and the size the margin is computed for as a parameter. `AutoTopUp` passes the reported size times the contract value, as written; `AutoTopUpScaledOnce` passes the reported size.
- Unhedged.TopUpAddsWhenNear: is stated over `TopUpDecision`, as above.
- Unhedged.TopUpFails: is stated over `TopUpDecision`, as above.
- Unhedged.DeltaPositionMeaning: states nothing for a negative contract size. The venue's contract values are positive.
- Unhedged.AutoTopUpScaledOnceMeaning: states nothing for a negative contract size, as above.
- The venue client library `delta_rest_client` is not part of this model. Its `create_order_format` and `round_by_tick_size` (imported at market_maker/base.py:17, used at market_maker/base.py:354-392) and its `cancel_order_format` (imported at clients/delta.py:1, used at clients/delta.py:484-488) are stood in for by the same-named helpers of market_maker/delta/utility.py: `DeltaUtility.OrderConvertFormat`, `DeltaUtility.RoundByTickSize` and `DeltaUtility.CancelOrderFormat`. The library's own versions may differ.
- Floating-point steps are modelled as exact arithmetic. These are the float `100.0000` in the size change of `diff` (market_maker/base.py:144-145), the division `size / self.min_levels` taken before the conversion to `Decimal` (market_maker/base.py:419), and the standalone bot's `takePrice`, which returns a float (market_maker/delta/utility.py:30-31). That `takePrice` feeds the standalone bot's price changes, comparisons, sort and ticker filter (market_maker/market_maker.py:82-83, 123, 159-172). Their rounding errors are not modelled.
- OrderPrep.GetTopOrdersBySize: requires `minLevels != 0`. The source divides by `self.min_levels` first thing (market_maker/base.py:419) and raises on zero; that error is not modelled.
- OrderPrep.FormatSideMeaning: requires a positive contract size and tick size. A zero one raises in the source (the size division at market_maker/base.py:362-367, the remainder in `round_by_tick_size`). Nothing is stated for negative ones.
- EditAggregation.Notional: requires the notional to be defined (`NotionalDefined`): an open inverse order priced 0 divides by zero at market_maker/base.py:110 and raises. That error is not modelled.
- EditAggregation.GetOrders: requires every create and delete to have a defined notional (`AllDefined`). `get_orders` computes every notional before its loop (market_maker/base.py:326-333), so any inverse order priced 0 raises there; that error is not modelled.
- EditAggregation.GetOrdersAccountsForDeletes: requires `AllDefined`, as `GetOrders` does.
- EditAggregation.GetOrdersPricesFromCreates: requires `AllDefined`, as `GetOrders` does.
- EditAggregation.GetOrdersBudget: requires `AllDefined`, as `GetOrders` does.
- EditAggregation.GetOrdersHeadDecision: requires `AllDefined`, as `GetOrders` does.
- Converge.SideSubmitsWithinBound: requires every live order of the side to be comparable by `diff` (`AllComparable`: priced nonzero unless empty) and every wanted order to have a defined notional (`AllDefined`). The source raises only for the pairs `diff` actually compares and the orders `get_orders` actually receives, so this is stronger than the source.
- Converge.CreatesWithinBound: requires `AllComparable` of the live orders left after popping, which is stronger than the source, as above.
- Converge.SideAccountsForEveryOrder: requires `AllComparable` and `AllDefined`, which is stronger than the source, as above.
- Converge.ConvergeAccountsForEveryOrder: requires `AllComparable` of all open orders and `AllDefined` of both wanted ladders, which is stronger than the source, as above.
- Converge.EditOrderFollowsTrend: requires `AllComparable` and `AllDefined`, which is stronger than the source, as above.
- LegacyBot.LegacyAccountsForEveryOrder: requires every open order to be comparable by the standalone `diff` (`AllComparable`: nonzero size and price), which is stronger than the source, where only the pairs compared must be.
- LadderDiff.TraceVisitsLive: requires every live order to be comparable by `diff` (`AllComparable`), which `Trace` needs. This is stronger than the source, which raises only on the pairs its main loop compares. For example, live orders (100, 5) and (0, 5) against an empty wanted ladder are all deleted without any comparison.
- LadderDiff.TraceWantedPrefix: requires `AllComparable` of the live orders, which is stronger than the source, as above.
- LadderDiff.TraceWantedCount: requires `AllComparable` of the live orders, which is stronger than the source, as above.
- LadderDiff.DiffRespectsLevelCap: requires `AllComparable` of the live orders, which is stronger than the source, as above.
- LadderDiff.TraceMovesJustified: requires `AllComparable` of the live orders, which is stronger than the source, as above.
- LegacyBot.LegacyConvergeMeaning: requires every open order to be comparable by the standalone `diff`, which is stronger than the source, where only the pairs compared must be.
- StreamClient.MarketOrderMeaning: states the order `market_order` sends, not its fill. What happens when the venue leaves part of it unfilled is stated by `StreamClient.SendMarketOrderMeaning`. How far a partly filled order moves the position is the venue's answer and is not modelled.
- PositionRecords.GetPositionMeaning: only restates the defaults of a record constructor. The margin is attached afterwards by the clients.
- RestGateway.NoAttemptWithoutCount: a counter of zero or below leaves `response` unbound in the source. That error is modelled as the `NeverSent` outcome.

## Findings

| source | as written | input that shows it | evidently intended | confidence | as-written member | corrected member |
|---|---|---|---|---|---|---|
| utils/utility.py:8-13 | the exact-multiple test has no early return, so `ceil` adds a whole tick to a price already on the grid | 10 with tick 0.5 and `ceil` gives 10.5 | an exact multiple is returned unchanged, as the venue helper in market_maker/delta/utility.py does | not executed | PriceRounding.CeilOnExactMultipleExample | DeltaUtility.RoundByTickSizeOnGrid |
| utils/decorators.py:43-56 | the typed error raised inside the inner `try` is caught by its own `except Exception`, and the status is classified again without the error field | HTTP 400 with error `InsufficientMargin` surfaces as `BadRequestError` | the message-specific kind (insufficient margin, invalid order, market disrupted) reaches the run loop | not executed | Failures.WrapLosesMessageExample | Failures.WrapIntendedMeaning |
| market_maker/unhedged.py:67-69 | `delta_position` already multiplies the size by `contract_size` (market_maker/base.py:125-129), and the top-up multiplies it again by `contract_value`, which equals the contract size (clients/delta.py:86-87) | a long of 1000 contracts of 0.001 coin, entry 50000, liquidation 49900, 100 posted, mark 50000, threshold 1%, maintenance 0.5%, funds 1000: no top-up, since the margin is computed for 0.001 coin | compute the margin for the position's size in coin, scaled once, which adds 650 | not executed | Unhedged.DoubleScalingExample | Unhedged.AutoTopUpScaledOnceMeaning |
| market_maker/delta/rest_client.py:148-159 | `get_wallet` (also `get_availableMargin`, `get_marked_price`) never decrements `retry_count` | four 503 replies with `retry_count` 3: a fourth request is sent, and the loop never gives up | give up after `retry_count` failed requests, as the other endpoints do | not executed | RestGateway.UncountedRetriesExample | RestGateway.CountedExchange |
