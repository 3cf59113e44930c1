# QuantLOB-Pro order-book core in Dafny

QuantLOB-Pro is a browser dashboard for a simulated limit order book. This
project models its core and proves properties of that model.

At its centre is an event-sourced reducer, `processEvent`. It folds one market
event into a market state, copy-on-write. The state holds:

- two price ladders: bids, best (highest) first, and asks, best (lowest) first;
- a trade tape of at most 50 entries;
- the list of active orders;
- a list of at most 50 cancelled orders;
- a last price and a timestamp.

The three handled event tags change the state as follows:

- ORDER_ADDED appends the order and merges it into its side. It raises the level at its price, or adds a new level, then re-sorts the side.
- ORDER_CANCELLED removes every active order with that id. It takes the first such order's remaining quantity off its level, and removes the level when nothing positive is left.
- ORDER_MATCHED records a trade and fills greedily from the top of the opposite side.

Two controllers drive the reducer:

- Replay seek rebuilds the state as a left fold of the reducer over a prefix of the event history, from a fixed start state.
- The live tick applies the reducer to the current state and appends the same event to the history.

Around them sit three derived views:

- the book panel's fifteen-level depth ladders, bar scale and spread;
- the replay controls: step back, step forward, play toggle, slider and autoplay;
- the analytics page's event counts.

The project has these modules:

- `Types` (types.dfy): the record and enum types as datatypes. The untyped event payload becomes one variant per tag.
- `Reducer` (reducer.dfy): `processEvent`, one side of the book at a time. The greedy fill loop is the method `ConsumeFromTop`, proved against the function `Consume`. The state invariant every reachable state keeps is `StateInvariant`.
- `Replay` (replay.dfy): the seek fold. Its `for` loop is the method `ReplayTo`, proved against the function `Seek`. The dashboard's mutable state is the class `Session`, whose methods model the live tick, seeding, connection toggle, mode switch and seek handler.
- `OrderBookView` (orderbook.dfy): the depth ladders. The running-total `map` is the method `Accumulate`, proved against `PrefixTotals`. This module also holds `maxTotal`, the spread and the corrected ask ladder.
- `ReplayControls` (replayview.dfy): the replay controls, and the class `ReplayView` holding the play flag.
- `Analytics` (analytics.dfy): the `stats` counts.

## Behaviours of the code worth knowing

- **Seek at or past the end of the history.** The seek loop reads `eventHistory[i]` for every i up to the index (App.tsx:152-153). Past the end that value is `undefined`, and `processEvent` throws when it reads its timestamp (App.tsx:47). So on an empty history every non-negative index throws. `Seek` returns `EventUndefined` for exactly these indexes. `Session.HandleReplaySeek` then leaves the shown state alone, but has already stored the index.
- **Live state versus history.** Folding the history event by event gives the state a seek to the end shows (`SeekStep`, `SeekLastIsFold`). The live state is not such a fold. It starts stamped with `Date.now()`, not 0 (App.tsx:26-35). The 100 seeded events go into the history but are never folded into the live state (App.tsx:41-44, `SeededStateIsNotReplay`).
- **Controls on an empty history.** Step forward asks for `min(-1, i + 1)`, which is -1, and a seek to -1 shows the replay start state. Step back and the slider ask for 0, whose seek throws (`EmptyHistoryControls`).

## Model

| member | source | states |
|---|---|---|
| Types.OrderSide.Opposite | App.tsx:111 | the side a match consumes is the other side, never the aggressor's own |
| Types.MarketState.WithBook | App.tsx:58-59 | `newState[targetBook] = levels` replaces exactly the targeted side; every other field, including the other side, is unchanged |
| Types.MarketState.Book | App.tsx:58 | `newState[targetBook]` reads the bids for BUY and the asks for SELL; that it and `WithBook` address the same side is stated by `Types.MarketState.WithBook` |
| Types.MarketEvent.Type | types.ts:63-67 | the event's `type` tag, which the payload variant determines; `Reducer.ProcessEvent` and `Analytics.Passes` dispatch on it |
| Types.Take | App.tsx:77 | `slice(0, n)` keeps the first min(n, length) elements in order |
| Types.TakeCons | App.tsx:77 | prepending an element and keeping n (n >= 1) gives a list of min(old + 1, n) elements headed by the new one, followed by the old list's first elements in order |
| Types.TotalQuantityConcat | components/OrderBook.tsx:18-20 | the quantity total of a concatenation is the sum of the parts' totals |
| Reducer.SortsBefore | App.tsx:70 | the comparator puts one level strictly before another: bids by descending price, asks by ascending; `Reducer.SortLevelsSorted` states that the sort's result is ordered by it |
| Reducer.InsertLevel | App.tsx:70 | one step of the stable sort puts the level among the others without losing or adding any (multiset) |
| Reducer.InsertLevelSorted | App.tsx:70 | inserting into a side sorted by the comparator keeps it sorted |
| Reducer.SortLevels | App.tsx:70 | `levels.sort(...)` returns a permutation of the side: the same levels, each as often |
| Reducer.SortLevelsSorted | App.tsx:70 | the sorted side is ordered by the comparator: bids descending, asks ascending |
| Reducer.SortSortedIsIdentity | App.tsx:70 | the stable sort leaves an already sorted side exactly as it was |
| Reducer.InsertLevelSplits | App.tsx:68-70 | a pushed fresh level ends up spliced in at one index, with every other level in its old relative order |
| Reducer.InsertIndexSeparates | App.tsx:70 | every level before that index sorts strictly before the new one; the level at the index does not |
| Reducer.InsertFreshKeepsOrder | App.tsx:67-70 | inserting a level at a price the side lacks keeps the side strictly ordered, with one level per price |
| Reducer.SortAppendFresh | App.tsx:68-70 | pushing a fresh-price level and re-sorting a strictly ordered side equals inserting it in its place |
| Reducer.FindLevelIndex | App.tsx:60 | `findIndex` returns -1 exactly when no level has the price; otherwise it returns the first level with it |
| Reducer.FindOrderIndex | App.tsx:74 | `find` locates the first active order with the id, or none when no order has it |
| Reducer.WithoutId | App.tsx:76 | `filter` keeps exactly the orders whose id differs and never lengthens the list; `Reducer.WithoutIdSingle` and `Reducer.WithoutIdAppend` state that it keeps them in order with duplicates |
| Reducer.WithoutIdSingle | App.tsx:76 | `filter` keeps a single order exactly when its id differs |
| Reducer.WithoutIdAppend | App.tsx:76 | `filter` over a concatenation is the concatenation of the filtered parts, so the survivors keep their order and duplicates; with `Reducer.WithoutIdSingle` this fixes the result exactly |
| Reducer.RaiseOrAppend | App.tsx:59-69 | the merge before the sort: raise the level at the price by q and one order, or push `{price, q, 1}`; `Reducer.AddAtExistingPrice` and `Reducer.AddAtNewPrice` state both branches |
| Reducer.AddToSide | App.tsx:58-70 | the merge followed by the stable re-sort; its exact result on a strictly ordered side is stated by `Reducer.AddToSideKeepsBook` |
| Reducer.AddToSideKeepsBook | App.tsx:58-70 | on a strictly ordered side: an existing price raises that level by q and one order; a new price inserts `{price, q, 1}` in its sorted place; the side stays strictly ordered; its total grows by exactly q |
| Reducer.AddAtExistingPrice | App.tsx:61-66 | the existing-price branch changes only that level, and the re-sort then moves nothing |
| Reducer.AddAtNewPrice | App.tsx:67-70 | the new-price branch inserts the level at its sorted index |
| Reducer.SamePriceKeepsOrder | App.tsx:62-66 | updating a level in place at the same price keeps the side strictly ordered |
| Reducer.RemoveFromSide | App.tsx:79-94 | the cancel's level update: splice out a level left with 0 or less, otherwise reduce it by the remaining quantity and one order; stated by `Reducer.RemoveFromSideKeepsBook` |
| Reducer.RemoveFromSideKeepsBook | App.tsx:79-94 | with no level at the price, the side is unchanged; a level left with 0 or less is spliced out; otherwise its quantity becomes the rest and its order count drops by one; all other levels keep their values and order; the total drops accordingly; strict order is kept |
| Reducer.SpliceKeepsOrder | App.tsx:85 | `splice(levelIdx, 1)` keeps the side strictly ordered |
| Reducer.Consume | App.tsx:113-123 | the greedy fill as a function of the side and the quantity; `Reducer.ConsumeTakesFromTop`, `Reducer.ConsumeRemovesFill` and `Reducer.ConsumeKeepsBook` state what it takes and keeps, and `Reducer.ConsumeFromTop` is the loop proved equal to it |
| Reducer.ConsumeFromTop | App.tsx:113-125 | the `while` fill loop terminates, and leaves exactly the side the greedy fill function describes |
| Reducer.ConsumeTakesFromTop | App.tsx:115-123 | the fill removes a run of best levels; at most one level is partially reduced, to a quantity strictly between 0 and its old one; everything below it is untouched; a fill of 0 or less changes nothing |
| Reducer.ConsumeRemovesFill | App.tsx:114-123 | on positive levels, a fill of q takes exactly min(q, side total) off the side |
| Reducer.ConsumeKeepsBook | App.tsx:113-124 | the fill keeps a side strictly ordered and its levels positive |
| Reducer.ApplyOrderAdded | App.tsx:50-71 | ORDER_ADDED appends `{id, side, price, q, q, ts, ACTIVE}`, updates only the order's own side, and leaves the tape, the cancelled and completed lists and the last price unchanged |
| Reducer.ApplyOrderCancelled | App.tsx:73-97 | an unknown id leaves the state as it is; a known id filters the active orders, prepends one CANCELLED copy of the first match to a list capped at 50, and reduces the order's level on its own side only |
| Reducer.ApplyOrderMatched | App.tsx:98-127 | ORDER_MATCHED sets the last price, prepends the trade to a tape capped at 50, fills the opposite side only, and leaves the aggressor's side and the order lists unchanged |
| Reducer.ProcessEvent | App.tsx:46-130 | every event stamps the state with its timestamp; `completedOrders` is never written; TRADE_EXECUTED and BOOK_SNAPSHOT change nothing else |
| Reducer.OrderAddedAppendsOneOrder | App.tsx:50-55 | ORDER_ADDED makes the active list one longer: the old list followed by the new ACTIVE order with original = remaining = quantity; the other side, the tape, the cancelled list and the last price are unchanged |
| Reducer.CancelUnknownIsNoOp | App.tsx:73-75 | cancelling an id that no active order has changes nothing but the timestamp |
| Reducer.CancelRemovesOrder | App.tsx:74-77 | cancelling a present id removes every order with that id and keeps every other one; the cancelled list becomes min(old + 1, 50) long, with the CANCELLED copy of the first match at its head and the old entries after it |
| Reducer.MatchRecordsTrade | App.tsx:100-124 | a match puts `{tradeId, ts, price, q, side}` at the head of the tape, which becomes min(old + 1, 50) long with the old trades after it; it sets the last price and fills only the opposite side |
| Reducer.AddToSideDisplayFree | App.tsx:62-68 | the reducer never sets `cumulativeQty` on a level it adds or raises |
| Reducer.RemoveFromSideDisplayFree | App.tsx:87-91 | nor on a level it reduces |
| Reducer.ConsumeDisplayFree | App.tsx:120 | nor on a level a fill reduces |
| Reducer.AddToSidePositive | App.tsx:62-68 | with a positive quantity, adding keeps every level of the side positive |
| Reducer.RemoveFromSidePositive | App.tsx:83-91 | cancelling keeps every level positive, because a level it would empty is spliced out |
| Reducer.StateInvariant | App.tsx:46-130 | what every reachable state keeps: both sides strictly ordered, no cumulative quantities, tape and cancelled list within 50, no completed orders, active orders ACTIVE and cancelled ones CANCELLED; preserved by `Reducer.ProcessEventKeepsInvariant` |
| Reducer.AddedKeepsInvariant | App.tsx:50-71 | ORDER_ADDED keeps the invariant: the touched side stays strictly ordered and free of cumulative quantities, and the new order is ACTIVE |
| Reducer.CancelledKeepsInvariant | App.tsx:73-97 | ORDER_CANCELLED keeps the invariant: the reduced side stays strictly ordered, the remaining orders ACTIVE and the capped cancelled list CANCELLED |
| Reducer.CancelKeepsStatuses | App.tsx:76-77 | filtering out an id keeps every remaining order ACTIVE; prepending the CANCELLED copy and keeping 50 leaves at most 50 orders, all CANCELLED |
| Reducer.MatchedKeepsInvariant | App.tsx:98-127 | ORDER_MATCHED keeps the invariant: the filled side stays strictly ordered and the tape within 50 |
| Reducer.ProcessEventKeepsInvariant | App.tsx:46-130 | every event keeps: both sides strictly ordered (sorted, one level per price); no cumulative quantities; tape and cancelled list within 50; no completed orders; only ACTIVE orders active; only CANCELLED orders cancelled |
| Reducer.ProcessEventKeepsLevelsPositive | App.tsx:46-130 | with positive added quantities, every level of both sides stays strictly positive |
| Replay.ReplayStart | App.tsx:148-151 | the empty book with last price 45000 and timestamp 0 that a seek starts from; `Replay.StartStatesKeepInvariant` states its invariant |
| Replay.LiveStart | App.tsx:26-35 | the same empty book stamped with the clock reading passed in for `Date.now()`; `Replay.StartStatesKeepInvariant` relates the two start states |
| Replay.Fold | App.tsx:152-154 | the left fold of `processEvent` over a run of events; `Replay.FoldSnoc`, `Replay.FoldAppend` and `Replay.FoldKeepsInvariant` state its contract |
| Replay.StartStatesKeepInvariant | App.tsx:26-35 | both start states satisfy the invariant; they differ only in the timestamp (wall clock versus 0), and are equal only when the clock reads 0 |
| Replay.FoldSnoc | App.tsx:152-154 | folding one more event is one more reducer step |
| Replay.FoldAppend | App.tsx:152-154 | folding a concatenation continues the fold of the first part |
| Replay.FoldKeepsInvariant | App.tsx:152-154 | a fold from a state satisfying the invariant ends in one |
| Replay.Seek | App.tsx:146-156 | a seek fails exactly when the index is at or past the history's end, reporting the undefined position |
| Replay.ReplayOne | App.tsx:153 | one pass of the loop body turns the state replayed through event i - 1 into the state replayed through event i |
| Replay.FoldTimestamp | App.tsx:47 | a fold over a non-empty run of events ends with the last event's timestamp |
| Replay.ReplayTo | App.tsx:148-154 | the `for` loop replays `history[0..index]` from the replay start, and stops where the source throws |
| Replay.SeekStep | App.tsx:152-154 | seek(i + 1) = processEvent(history[i + 1], seek(i)), starting from seek(-1), the replay start |
| Replay.SeekLastIsFold | App.tsx:146-156 | seeking to the last event is the fold of the whole history |
| Replay.SeekKeepsInvariant | App.tsx:46-156 | every replayed state satisfies the invariant; no order anywhere is FILLED or PARTIAL |
| Replay.SeekTimestamp | App.tsx:47 | a seek to event i shows event i's timestamp |
| Replay.SeekThenTicks | App.tsx:136-139 | events appended by live ticks after a seek to the end fold on from the sought state |
| Replay.SeededStateIsNotReplay | App.tsx:41-44 | with one seeded order and no tick, the live book is empty while replaying the seed shows the order's level |
| Replay.Session.constructor | App.tsx:24-38 | start-up state: live, connected, the live start state, an empty history, replay index 0 |
| Replay.Session.SeedHistory | App.tsx:41-44 | seeding replaces the history and touches nothing else |
| Replay.Session.LiveTick | App.tsx:133-140 | a tick happens exactly in live mode while connected; it sets the state to processEvent(e, old state) and appends e, so the history grows by one; otherwise nothing changes; the invariant is kept |
| Replay.Session.ToggleConnection | App.tsx:182 | the connection button flips the flag and nothing else |
| Replay.Session.SetMode | components/ReplayView.tsx:20-22 | a view's mount sets the mode and nothing else |
| Replay.Session.HandleReplaySeek | App.tsx:146-156 | the index is always stored; the state becomes the replayed one exactly when the index is before the history's end, and is otherwise unchanged; the invariant is kept |
| OrderBookView.Reverse | components/OrderBook.tsx:16 | `reverse()` keeps the length and puts element length-1-i at i |
| OrderBookView.TotalQuantityReverse | components/OrderBook.tsx:16-20 | reversing a run of levels keeps its total |
| OrderBookView.PrefixTotals | components/OrderBook.tsx:17-21 | the meaning of a ladder: row i is level i with the total of levels 0..i; `OrderBookView.Accumulate` is the `map` loop proved equal to it |
| OrderBookView.Accumulate | components/OrderBook.tsx:17-21 | the running-total `map` gives row i the level's own fields and the total of levels 0..i |
| OrderBookView.ProcessedBids | components/OrderBook.tsx:24-31 | the best fifteen bids with running totals; stated by `OrderBookView.ProcessedBidsShape` |
| OrderBookView.ProcessedAsks | components/OrderBook.tsx:15-22 | as written: the best fifteen asks reversed, then given running totals; stated by `OrderBookView.ProcessedAsksShape` |
| OrderBookView.ProcessedBidsShape | components/OrderBook.tsx:24-31 | at most 15 bid rows, best first; each keeps its level's price, quantity and order count; row i carries the total of bids 0..i; the last row carries the total of all displayed bids |
| OrderBookView.ProcessedAsksShape | components/OrderBook.tsx:15-22 | at most 15 ask rows, deepest first; each keeps its level's fields; row 0 carries only the deepest shown ask's own quantity; the last row (best ask) carries the total |
| OrderBookView.PrefixTotalsBoundedByLast | components/OrderBook.tsx:18-20 | with positive levels, no row's running total exceeds the last row's |
| OrderBookView.OrZero | components/OrderBook.tsx:34-35 | `x?.cumulativeQty \|\| 0` reads a missing value as 0 and a present one as itself |
| OrderBookView.FirstTotal | components/OrderBook.tsx:34 | `processedAsks[0]?.cumulativeQty`: none on an empty ladder, otherwise the first row's total; used by `OrderBookView.MaxTotal` |
| OrderBookView.LastTotal | components/OrderBook.tsx:35 | `processedBids[length - 1]?.cumulativeQty`: none on an empty ladder, otherwise the last row's total; used by `OrderBookView.MaxTotal` |
| OrderBookView.MaxTotal | components/OrderBook.tsx:33-37 | the scale is the maximum of the first ask row's total, the last bid row's total and 1; so it is at least 1, at least each, and equal to one of the three |
| OrderBookView.AskDepthOverflowsScale | components/OrderBook.tsx:15-37 | as written, asks 45001 x 5 and 45002 x 5 give a scale of 5 while the best-ask row carries 10 |
| OrderBookView.ProcessedAsksFromBest | components/OrderBook.tsx:15-22 | the corrected ask ladder: totals taken from the best ask, then reversed for display; stated by `OrderBookView.ProcessedAsksFromBestShape` and `OrderBookView.CorrectedRowsWithinScale` |
| OrderBookView.ProcessedAsksFromBestShape | components/OrderBook.tsx:15-22 | the corrected ladder keeps the row order and fields, gives each row the depth from the best ask down to it, and puts the displayed total in row 0 |
| OrderBookView.CorrectedRowsWithinScale | components/OrderBook.tsx:33-43 | with the corrected ladder and positive levels, no row of either side is wider than the scale |
| OrderBookView.Spread | components/OrderBook.tsx:74 | a spread is shown exactly when both sides are non-empty |
| OrderBookView.SpreadIsNarrowestGap | components/OrderBook.tsx:74 | on ordered sides, best ask minus best bid is the smallest ask-bid price gap, and some pair attains it |
| OrderBookView.CrossedBookSpread | components/OrderBook.tsx:74 | the reducer never matches an added order, so the book can cross: a SELL at 100 and then a BUY at 200 show a spread of -100 |
| ReplayControls.StepBackTarget | components/ReplayView.tsx:42 | `max(0, i - 1)`: at least 0 and at least i - 1, and equal to one of them |
| ReplayControls.StepForwardTarget | components/ReplayView.tsx:54 | `min(length - 1, i + 1)`: at most each, and equal to one of them |
| ReplayControls.AutoplayRequest | components/ReplayView.tsx:26-29 | the effect asks for a seek exactly while playing and before the last event, and it asks for i + 1 |
| ReplayControls.StillPlaying | components/ReplayView.tsx:30-31 | play continues exactly when the effect asked for a seek |
| ReplayControls.ControlsStayInHistory | components/ReplayView.tsx:42-72 | on a non-empty history, from an index in range, step back, step forward, the slider and autoplay all ask for indexes in range, whose seeks succeed |
| ReplayControls.EmptyHistoryControls | components/ReplayView.tsx:42-72 | on an empty history: step forward asks for -1, which shows the start state; step back and the slider ask for 0, whose seek throws; autoplay asks for nothing |
| ReplayControls.Autoplay | components/ReplayView.tsx:24-34 | the index and play flag after a number of effect runs, each followed by its seek; `ReplayControls.AutoplayStopsAtEnd` and `ReplayControls.PausedStaysPut` state its contract |
| ReplayControls.AutoplayStopsAtEnd | components/ReplayView.tsx:24-34 | autoplay from an index in range advances one event per run, never passes the last event, and after enough runs has stopped there |
| ReplayControls.PausedStaysPut | components/ReplayView.tsx:26-31 | a paused autoplay never moves and stays paused |
| ReplayControls.ReplayView.constructor | components/ReplayView.tsx:18 | the view mounts paused |
| ReplayControls.ReplayView.TogglePlay | components/ReplayView.tsx:48 | the play button flips the play flag |
| ReplayControls.ReplayView.AutoplayTick | components/ReplayView.tsx:24-34 | one effect run requests exactly the autoplay request; the flag becomes the continue rule; when asked, the dashboard's index moves one on and shows the replayed state; when not asked, nothing moves |
| Analytics.Passes | components/Analytics.tsx:27-32 | each `filter` predicate of the counts: the tag test, and for the side counts the ORDER_ADDED tag together with the side; `Analytics.SidesSplitAdded` and `Analytics.TagCountsPartitionTotal` relate them |
| Analytics.ComputeStats | components/Analytics.tsx:25-35 | the `stats` record: the history's length and the five filtered counts; `Analytics.TagCountsPartitionTotal`, `Analytics.SidesSplitAdded` and `Analytics.AppendOneEvent` state its contract |
| Analytics.Count | components/Analytics.tsx:27-32 | `filter(...).length` is at most the history's length |
| Analytics.CountAppend | components/Analytics.tsx:27-32 | counting a concatenation adds the parts' counts |
| Analytics.AppendOneEvent | components/Analytics.tsx:26-32 | appending one event raises the total by one, and each count by one exactly when the event passes that count's filter |
| Analytics.TagCountsPartitionTotal | components/Analytics.tsx:26-29 | added + cancelled + matched plus the unhandled-tag events is the total; so the sum is at most the total, and equals it exactly when every event has a handled tag |
| Analytics.SidesSplitAdded | components/Analytics.tsx:27-32 | buyOrders + sellOrders = added, because every side is BUY or SELL |

## Findings

| source | as written | input that shows it | evidently intended | confidence | as-written member | corrected member |
|---|---|---|---|---|---|---|
| components/OrderBook.tsx:16-37 | the ask rows are reversed before the running total is taken, yet `maxTotal` reads row 0 as the ask total; row 0 holds only the deepest shown ask's own quantity, so the best-ask bar can be wider than the scale | asks 45001 x 5 and 45002 x 5, no bids: scale 5, best-ask row total 10, bar drawn at 200% | accumulate from the best ask, then reverse, so row 0 carries the ask total and every bar fits the scale | medium, not executed | OrderBookView.AskDepthOverflowsScale | OrderBookView.ProcessedAsksFromBest |

## Left out

- services/mockDataService.ts, the event generator, is not part of this model. It depends on `Math.random`, `Date.now` and module-level mutable state. Events are arbitrary inputs here. Where a property needs it, the lemma requires what the generator guarantees: positive added quantities (`PositiveAdd`).
- `Date.now()` at start-up is the parameter `now` of `LiveStart` and of `Session`'s constructor.
- Timers and the React effect lifecycle (`setInterval`, `clearInterval`, `useEffect`, batched state setters) are left out; they are scheduling, not logic. The live tick and an autoplay effect run are each one discrete method call.
- ReplayControls.ReplayView.AutoplayTick: the source's interval can fire more than once with the same stale index before the effect re-runs. The model takes one request per effect run, followed by its seek.
- ReplayControls.SliderAllows: the range input's own clamping is browser behaviour, not part of the source. The model assumes the browser reports an integer from 0 to `length - 1`, and 0 when the maximum lies below the minimum.
- Prices and quantities are unbounded integers. The generator only produces integers, so JavaScript's floating-point arithmetic is not modelled.
- Formatting (`toFixed`, `toLocaleTimeString`), bar-width percentages, the analytics arrival rate and ratios, and every `Date` conversion are left out. They are presentation only.
- JSX rendering, routing, icons, charts, and the components Dashboard, TradeTape, PriceChart and OrderLifecycle are left out as presentation. Their only effect on the core is `setMode`, which `Session.SetMode` models.
- `processEvent` throwing on `undefined` is modelled only where it can happen, past the end of a seek. Any other malformed payload is excluded by the typed event datatype.
- The order count of a level is not claimed to stay positive. A fill reduces a level's quantity without touching its order count, and a later cancel at that price decrements it. So the count can reach 0 or below while the level stays on the book.
