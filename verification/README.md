# Verified model of alphaTrade's broker, bracket, backtester and bookkeeping

alphaTrade is a trading bot: it queues orders by urgency and drains them one at a time,
protects each BUY with a stop and a limit leg, keeps position and performance records,
and replays its models over history with a bar-by-bar backtester. This project models
those parts in Dafny and proves what they promise, over every input and every run.

| file | models |
|---|---|
| Trading.dfy | sides, bar intervals and the table of bar lengths |
| OrderQueue.dfy | order records, deduplication keys, the priority rule |
| PlainBroker.dfy | the reference broker: one list of waiting orders and the drain task's place in its loop, as a step machine |
| BrokerRuns.dfy | theorems over whole runs of that machine |
| AsyncBroker.dfy | the imperative broker (lazily evicting heap, eviction set, counter, event, mirror, key set), proved to implement the reference broker step by step |
| Bracket.dfy | `_process_one` with its fill-price polls and leg placement, and the `monitor_oco` loop, against an exchange that moves the legs on its own |
| Positions.dfy | the position table, BUY and SELL fills, reconciliation |
| Lifecycle.dfy | one BUY order from the market to its exit, across `_process_one`, the fill callback and the monitor, and the SELL that may cut it short |
| Backtest.dfy | the two runners, as loops and as the functions they compute |
| BacktestHistory.dfy | a declarative account of a trade list, and the proof that the run's list is the only one that fits it |
| BacktestPrices.dfy | what a run's trades mean in the bars' own prices, and what the model is shown |
| BacktestTheorems.dfy | no look-ahead, the VWAP column, compounding, solvency |
| LagTheorems.dfy | the lagged runner compared with the plain one and with itself, and when it looks ahead |
| Reporter.dfy | the backtest summary |
| Performance.dfy | the rolling performance window and retirement |
| Throttle.dfy | the per-endpoint rate limiter |
| BarClose.dfy | the bar-close scheduler, intraday and by the exchange calendar |
| RealMath.dfy | products and quotients of reals |
| Wrappers.dfy | `Option` |

How to read it. Code that changes things in place is a class or a method with loops,
proved equal to a function of the old state; the lemmas are then about that function.
Suspension points of the asyncio code are the boundaries of steps: a broker run is any
sequence of arrivals and drain steps, a monitor run any sequence of poll rounds in which
the exchange may move a leg between any two requests. Prices and times are exact reals.
Clocks, the exchange, the calendar, peers' signals and the inference function are inputs.

Results worth knowing where the code and its promise part:

- A full queue evicts, and a full queue with nothing to evict refuses (`RefusedIff`): with
  a depth of one, a SELL arriving while an order is being processed is dropped although no
  order is waiting (`SellRefusedWhileBusy`).
- A BUY gets a bracket exactly when both percentages are set and both legs are placed under
  a name (`ProtectedIff`); with only one of stop and target configured it never does
  (`OnePercentageNeverProtected`).
- When placement reports no ids, a leg stays live exactly when a cancel of it failed or the
  exchange had accepted it without a name (`BracketAtomic`, with the input
  `UnnamedOrderLeftBehind`). When the monitor ends, no leg is live exactly when the cancel of
  a live survivor took effect (`MonitorLeavesNoLeg`).
- A leg may fill between the polls of the deciding round and its cancel request. Then the
  position is still held although a leg has filled, if the round saw the other leg dead, or
  both legs have filled, if it saw the other one filled (`LateFills`). The position is closed
  exactly when a leg has filled in all other cases (`ClosedIffFilled`).
- A closing leg clears the whole row but sells and journals only its own order's quantity.
  That is everything held exactly when the ticker was flat before the order
  (`BookedIsHeldIffFlat`).
- The lagged runner counts a peer on any bar only if the peer's whole series is as long as
  the run, so data after a bar can change trades before it (`LongerRunDropsPeer`). It does
  not look ahead if and only if the peers' counts agree through that bar
  (`LagLookAheadIff`).
- The rolling window respects its lookback exactly for lookbacks of at least one; with
  zero the slice keeps everything (`WindowFitsIffLookbackPositive`, `ZeroLookbackKeepsAll`).
- The one-pass drawdown is always the fall between some two points in time. It is the
  greatest one exactly when every fall from the lowest earlier positive equity to a point
  below zero is covered by some fall from the running peak (`DrawdownIsMaximumIff`). So
  below zero it can be too small (`BelowZeroUndercounts`) but need not be
  (`BelowZeroMayBeExact`).
- The scheduler's target is the earliest boundary-plus-margin still to come exactly when
  the margin of the last boundary is over (`EarliestIffMarginOver`); started within a margin
  it passes over the bar that has just closed (`StartedWithinMargin`).
- The docstring of the queue (alphaTrade/broker/async_broker.py:39-41) says its size counts
  the items not evicted; the code also counts the order in flight until it is done, and so
  does the model (`QsizeCountsInFlight`).
- FEATURES.md:150 lists Sharpe ratio, total return and profit factor among the summary
  statistics; the code computes none of them, and neither does the model.

Code and specification here share small functions (a deduplication key, a stop test, a
threshold). Each of them is pinned a second time, without its own name, by a theorem in
plain terms: `DedupedIff`, `StaleIff`, `ClosedIffSeenFilled`, `BarsOfTrade`, `EntryTerms`,
`RetiresIff` and the other rows below whose names end in `Is` or `Iff`.

## Model

| member | source | states |
|---|---|---|
| OrderQueue.UrgencyRule | alphaTrade/broker/order_queue.py:7-19 | a SELL goes before every BUY; among BUYs of known intervals the shorter bar goes first; an unknown interval ties with the hourly one |
| Trading.BarLengths | alphaTrade/broker/async_broker.py:30-33 | the table of bar lengths, each counted in the one before |
| PlainBroker.WorstIndex | alphaTrade/broker/async_broker.py:146 | the eviction candidate has the largest priority number and is the first such in arrival order |
| PlainBroker.LeastIndex | alphaTrade/broker/async_broker.py:66 | the heap's pop takes an entry that none precedes by (priority, seq) |
| PlainBroker.StepKeepsInv | alphaTrade/broker/async_broker.py:129-226 | every step keeps: arrival order, one order per key among waiting and processed, the in-flight order not waiting, at most max depth orders active |
| PlainBroker.RunKeepsInv | alphaTrade/broker/async_broker.py:129-226 | so does every interleaving of arrivals with the drain's steps |
| BrokerRuns.StepConserves | alphaTrade/broker/async_broker.py:129-226 | a step moves each order between waiting, in flight, evicted and finished without losing or making one |
| BrokerRuns.RunConserves | alphaTrade/broker/async_broker.py:129-226 | the same over any run from any state |
| BrokerRuns.AcceptedNumbers | alphaTrade/broker/async_broker.py:140 | accepted orders carry fresh, strictly increasing sequence numbers |
| BrokerRuns.ExactlyOnce | alphaTrade/broker/async_broker.py:129-226 | from an empty broker, in every run, each accepted order is in exactly one of waiting, in flight, evicted, finished, and nothing else is anywhere |
| BrokerRuns.JoinedRun | alphaTrade/broker/async_broker.py:88-91 | when the counter is zero every accepted order was either evicted or finished |
| BrokerRuns.LeastIsFirstOfBest | alphaTrade/broker/async_broker.py:66-74 | what a dispatch takes is the oldest order of the most urgent waiting class |
| BrokerRuns.DedupedIff | alphaTrade/broker/async_broker.py:131-137 | an order is a duplicate if and only if one of the same ticker, side and bar is waiting or being processed |
| BrokerRuns.EnqueueEffect | alphaTrade/broker/async_broker.py:139-165 | an accepted order goes last, as given, under the next number; a victim alone leaves; a duplicate changes nothing and a refusal uses up a number |
| BrokerRuns.AcceptedIff | alphaTrade/broker/async_broker.py:142 | an order that is no duplicate is simply accepted if and only if fewer than max depth are waiting or in flight |
| BrokerRuns.StepOnSells | alphaTrade/broker/async_broker.py:129-194 | one step dispatches the first waiting SELL or leaves the waiting SELLs in place, new ones behind |
| BrokerRuns.SellsDispatchedFirst | alphaTrade/broker/async_broker.py:183-194 | whatever arrives later, the next dispatches are exactly the SELLs waiting now, in arrival order |
| BrokerRuns.AcceptedSellTurn | alphaTrade/broker/async_broker.py:163-194 | an accepted SELL is dispatched after exactly the SELLs waiting before it |
| BrokerRuns.RefusedIff | alphaTrade/broker/async_broker.py:142-152 | an order is refused for fullness exactly when the queue is full and no waiting order is of a strictly worse class; for a SELL, only when no BUY waits |
| BrokerRuns.SellRefusedWhileBusy | alphaTrade/broker/async_broker.py:142-152 | the input at depth one: a SELL refused although no order is waiting |
| BrokerRuns.VictimIsOldestOfWorst | alphaTrade/broker/async_broker.py:146-157 | the evicted order is the oldest of the worst waiting class, strictly less urgent than the newcomer, a BUY, and the only one removed |
| BrokerRuns.SellNeverEvicted | alphaTrade/broker/async_broker.py:142-165 | no run evicts a SELL |
| BrokerRuns.DrainOrderIsStableSort | alphaTrade/broker/async_broker.py:62-75 | taking the least item again and again is the stable sort by priority: same orders, classes in order, each class in arrival order |
| BrokerRuns.DispatchesFollowDrainOrder | alphaTrade/broker/async_broker.py:183-226 | without arrivals any run dispatches along that order, and what is left is its remainder |
| BrokerRuns.DrainFinishesEverything | alphaTrade/broker/async_broker.py:88-91 | from any state, whatever becomes of each order: without arrivals the drain takes a bounded number of steps, finishes what was outstanding in order, and can go no further exactly when all of it is finished |
| BrokerRuns.AtRestIff | alphaTrade/broker/async_broker.py:183-226 | some step is possible exactly while an order is waiting or in flight |
| BrokerRuns.RunAppend | alphaTrade/broker/async_broker.py:183-226 | a run of two parts is the second run from where the first ended, effects in sequence |
| BrokerRuns.WaitingIsLeastK | alphaTrade/broker/async_broker.py:139-165 | from any state, an order in flight or not: after any enqueues without dispatch, the waiting priorities are the least of those waiting before and those offered, as many as the depth leaves room for |
| BrokerRuns.LeastKUnique | alphaTrade/broker/async_broker.py:139-165 | there is only one multiset of least elements of that size, so the queue's content is determined |
| BrokerRuns.DistinctRequestsTopK | alphaTrade/broker/async_broker.py:129-165 | for keys that are pairwise distinct and not held, the same over all requests' priorities |
| AsyncBroker.EvictablePriorityQueue.PutNowait | alphaTrade/broker/async_broker.py:49-53 | the item joins the live entries, the counter goes up, the event is set |
| AsyncBroker.EvictablePriorityQueue.EvictBySeq | alphaTrade/broker/async_broker.py:55-60 | the entry leaves the live entries while the heap keeps it; evicted numbers stay within the heap; a counter that reaches zero clears the event |
| AsyncBroker.EvictablePriorityQueue.Get | alphaTrade/broker/async_broker.py:62-75 | returns the least live entry by (priority, seq), never an evicted one, and suspends exactly when none is live; the skip loop ends |
| AsyncBroker.EvictablePriorityQueue.TaskDone | alphaTrade/broker/async_broker.py:77-80 | the counter goes down and stops at zero |
| AsyncBroker.QsizeCountsInFlight | alphaTrade/broker/async_broker.py:39-41 | the size is the number of waiting orders exactly while none is in flight |
| AsyncBroker.AsyncBroker.constructor | alphaTrade/broker/async_broker.py:97-119 | the new broker stands for the empty reference broker |
| AsyncBroker.AsyncBroker.Enqueue | alphaTrade/broker/async_broker.py:129-165 | heap, eviction set, counter, event, mirror and keys stay in agreement, and outcome and new state are the reference broker's |
| AsyncBroker.AsyncBroker.Evict | alphaTrade/broker/async_broker.py:153-157 | one waiting order leaves mirror, keys, live entries and counter together, and no other does |
| AsyncBroker.AsyncBroker.Append | alphaTrade/broker/async_broker.py:163-165 | an order joins keys, mirror, live entries and counter together |
| AsyncBroker.AsyncBroker.Dispatch | alphaTrade/broker/async_broker.py:183-201 | takes exactly the order the reference broker dispatches; suspends only when nothing waits, with the event clear (no lost wake-up); the skip branch is never reached |
| AsyncBroker.AsyncBroker.ProcessDone | alphaTrade/broker/async_broker.py:204-205 | the key is released, the counter still counts the order |
| AsyncBroker.AsyncBroker.ProcessRaised | alphaTrade/broker/async_broker.py:216-223 | the key is released and the order counted as done |
| AsyncBroker.AsyncBroker.CallbackDone | alphaTrade/broker/async_broker.py:207-223 | the order is counted as done, whether or not the callback raised |
| AsyncBroker.AsyncBroker.JoinReturns | alphaTrade/broker/async_broker.py:88-91 | join's loop ends exactly when nothing is waiting or in flight |
| Bracket.PlaceBracket | alphaTrade/broker/async_broker.py:313-352 | ids reported and legs left at the exchange, for every combination of placement and cancel failures and leg movements; legs are for the whole order, at their percentage below and above the fill |
| Bracket.PlacedIff | alphaTrade/broker/async_broker.py:313-338 | a leg is placed if and only if the order is a BUY with its percentage and the exchange takes it |
| Bracket.IdsReported | alphaTrade/broker/async_broker.py:323-338 | the ids reported are those the exchange gave |
| Bracket.ProcessOne | alphaTrade/broker/async_broker.py:267-354 | an order is dropped as stale, without a market order or a leg, if and only if it is older than its bar's length times the multiplier; a failed one reports no ids; a filled one places the signed quantity and its bracket, at the price the polls settle on |
| Bracket.StaleIff | alphaTrade/broker/async_broker.py:269-280 | the age beyond which an order is stale, and that it then stays so |
| Bracket.PollFillPrice | alphaTrade/broker/async_broker.py:228-265 | the price of the first answer, else what the polls settle on, else the price at signal time |
| Bracket.MarketPriceIs | alphaTrade/broker/async_broker.py:239-265 | the price answered at once, else that of the first poll in a terminal status if none raised before it, else the price at signal time; zero counts as no price |
| Bracket.FirstEndingPollSettles | alphaTrade/broker/async_broker.py:248-265 | the polls settle on the first that raised or found a terminal status; a price told before that does not count |
| Bracket.BracketAtomic | alphaTrade/broker/async_broker.py:313-352 | for every combination of placements and failures, both ids or neither; with neither, no leg is live if and only if none was asked for or what was live was taken back |
| Bracket.ProtectedIff | alphaTrade/broker/async_broker.py:313-352 | ids are reported if and only if the order is a BUY with both percentages and both legs were placed under a name |
| Bracket.OnePercentageNeverProtected | alphaTrade/broker/async_broker.py:313-352 | with only one of the two percentages set, no ids are ever reported |
| Bracket.UnnamedOrderLeftBehind | alphaTrade/broker/async_broker.py:325-352 | the input: an order accepted under an empty id is left live although no ids are reported |
| Bracket.ClosePosition | alphaTrade/broker/oco_monitor.py:105-160 | the row becomes a cooldown row and, when the model is known, the exit is journalled and booked on its performance record |
| Bracket.ClosedEntryReports | alphaTrade/broker/oco_monitor.py:118-143 | the journal entry of an exit, field by field: who, what, when, why, and proceeds less cost |
| Bracket.MonitorOco | alphaTrade/broker/oco_monitor.py:23-95 | over any stream of polls, the loop ends at the first decisive round with that round's decision; errors and undecided rounds change nothing; only a fill closes the position, once |
| Bracket.DecidesIff | alphaTrade/broker/oco_monitor.py:40-95 | a round decides if and only if both polls succeed and it sees a leg filled, cancelled or rejected |
| Bracket.ClosedIffSeenFilled | alphaTrade/broker/oco_monitor.py:51-95 | the position is closed if and only if the deciding round saw a leg filled, at the stop's price if it saw the stop filled, else at the limit's; a dead leg decides only when none was seen filled |
| Bracket.MonitorLeavesNoLeg | alphaTrade/broker/oco_monitor.py:51-102 | at exit no leg is live if and only if the cancel of a leg still live took effect |
| Bracket.ExitIsTruthful | alphaTrade/broker/oco_monitor.py:51-95 | a stop exit means the stop leg filled at the price used, a limit exit the limit leg, a dead exit a cancelled or rejected leg |
| Bracket.ClosedIffFilled | alphaTrade/broker/oco_monitor.py:51-102 | at the end of the monitor the position is closed exactly when a leg has filled, except for one that filled after the deciding round's polls; both legs have filled exactly when both were seen so or the second filled after those polls |
| Bracket.LateFills | alphaTrade/broker/oco_monitor.py:51-95 | the inputs: a limit leg that fills after the round saw the stop leg cancelled, or filled |
| Bracket.TerminalLegEndsMonitor | alphaTrade/broker/oco_monitor.py:40-95 | once a leg is terminal, the first round whose polls succeed has ended the monitor |
| Bracket.LegsAtTerminal | alphaTrade/broker/oco_monitor.py:20-49 | a terminal leg stays as it is while the monitor polls, and a placed leg never becomes absent |
| Bracket.NoLegLeftBehind | alphaTrade/broker/async_broker.py:313-354 | across placement and monitor, for every environment: exactly when a leg is left live, with no ids reported or after the monitor has ended |
| Bracket.NamedLegsNeverLeftBehind | alphaTrade/broker/async_broker.py:313-354 | with named orders and cancels of live legs that take effect, none is |
| Positions.PositionRepo.Upsert | alphaTrade/store/repos.py:148-162 | an existing row takes quantity, average, signal time and cooldown, order ids only when given, and keeps the rest |
| Positions.UpsertedIs | alphaTrade/store/repos.py:148-162 | field by field, what an upsert changes and keeps |
| Positions.PositionRepo.UpdateOcoIds | alphaTrade/store/repos.py:164-169 | sets the ids of an existing row, changes nothing otherwise |
| Positions.PositionRepo.Remove | alphaTrade/store/repos.py:179-183 | drops the ticker's row and no other |
| Positions.OnBuyFill | alphaTrade/main.py:919-971 | the new table: the holding blended with the fill, or opened by it, and the bracket's ids when both are there |
| Positions.BoughtRowIs | alphaTrade/main.py:932-967 | the row after a BUY: signalled now and out of cooldown; a first row takes opening, levels and model from the order, a row that was there keeps its own |
| Positions.LevelsAre | alphaTrade/main.py:933-934 | stop and target lie their share of the fill below and above it |
| Positions.FillPriceIs | alphaTrade/main.py:919 | a missing or zero fill price gives way to the price at signal time |
| Positions.BlendedAverage | alphaTrade/main.py:939-943 | the blended average reproduces the joint cost and lies within any bounds on both prices |
| Positions.CostBasis | alphaTrade/main.py:932-967 | after any BUY fills from flat the row holds the sum of the fills, at an average that reproduces their total cost and lies within any bounds on the fill prices |
| Positions.BuysTouchOneTicker | alphaTrade/main.py:932-967 | BUY fills leave all other rows alone |
| Positions.BuysKeepBracketIds | alphaTrade/store/repos.py:155-159 | BUY fills without a bracket leave the ids of the bracket in place |
| Positions.OnSellFill | alphaTrade/main.py:1028-1054 | the row becomes a cooldown row, and when there was one the exit of the old row is journalled and booked on the model's performance record |
| Positions.SellEntryIs | alphaTrade/main.py:288-310 | the journal entry of a SELL, field by field |
| Positions.CooldownRowIs | alphaTrade/main.py:1026-1032 | a cooldown row holds nothing, names no order and runs out the cooldown from now |
| Positions.RecordMatchesJournal | alphaTrade/risk/performance.py:30-53 | after any exits a model's record agrees with its journal: window a suffix of the journalled P&Ls, rolling P&L its sum, counters over all |
| Positions.BookedIs | alphaTrade/broker/oco_monitor.py:144-153 | booking an exit records its P&L and retires the model there and then if and only if the check would |
| Positions.BuysThenSell | alphaTrade/main.py:288-310 | BUY fills from flat and a SELL of everything held journal exactly proceeds less total cost, leave the ticker flat and other rows alone |
| Positions.ReconcilePositions | alphaTrade/main.py:325-359 | the two loops compute the reconciled table, in any order of tickers |
| Positions.ReconciledIs | alphaTrade/main.py:335-359 | ticker by ticker: which rows there are afterwards, what a held ticker's row says and what it keeps |
| Positions.IsCloseIff | alphaTrade/main.py:350 | two quantities agree if and only if they differ by at most a ten-thousandth of the larger in size; only zero agrees with zero |
| Positions.ReconcileIdempotent | alphaTrade/main.py:325-359 | reconciling twice is reconciling once |
| Positions.ReconcileMatchesBroker | alphaTrade/main.py:335-359 | afterwards rows with a quantity are ones the broker holds, its holdings all have agreeing rows, and unknown cooldown rows are untouched |
| Lifecycle.BookAndWatch | alphaTrade/main.py:919-998 | books the fill and, when both ids are there, runs the monitor: a leg seen filled leaves a cooldown row, one journal entry of proceeds less cost and one booking on the record; otherwise the order stays held, with the ids, and nothing is booked; and exactly when a leg has filled without the row being closed, or both have |
| Lifecycle.BuyLifecycle | alphaTrade/broker/async_broker.py:267-354 | from market order to exit: an unfilled order leaves no trace; a filled one is bought once and held until the monitor sees a leg filled; then the ticker is flat, in cooldown and booked once, at the price reported for the leg or the level it was placed at; exactly when a leg is left live once the order is let go, and exactly when a leg has filled unseen or both have filled |
| Lifecycle.BookedIsHeldIffFlat | alphaTrade/broker/oco_monitor.py:118-143 | what a closing leg books is all that was held if and only if the ticker was flat before the order |
| Lifecycle.SellFilled | alphaTrade/main.py:1006-1054 | the SELL arm cancels the legs the row names, then closes, journals and books |
| Lifecycle.LiveAfterSellIff | alphaTrade/main.py:1009-1024 | a leg is live after a SELL if and only if it was so at its turn, and the row did not name it or its cancel did not take effect |
| Lifecycle.SellLeavesNoLeg | alphaTrade/main.py:1009-1024 | a SELL of a watched position leaves no leg live if and only if the cancel of each leg still live took effect or the leg ended by itself |
| Backtest.PrecomputeVwap | alphaTrade/backtest/engine.py:190-209 | the one-pass running sums give every row the VWAP of all bars up to it |
| BacktestPrices.VwapMixes | alphaTrade/backtest/engine.py:201-206 | a row's VWAP mixes the one before with the bar's mean of high, low and close, by volume |
| BacktestPrices.WindowShown | alphaTrade/backtest/engine.py:253-255 | the model is shown the bar and the window + 50 bars before it |
| Backtest.RunSingleModel | alphaTrade/backtest/engine.py:212-306 | the loop computes the specified walk: outcome, trades and final equity, or the failure when inference or a division raises |
| BacktestPrices.ShortSeries | alphaTrade/backtest/engine.py:222-226 | no data exactly below window + 2 bars; no trade below window + 52 |
| BacktestPrices.FirstEntry | alphaTrade/backtest/engine.py:235-260 | no trade if and only if the model holds on every bar from window + 50 to the last but one; else the first trade follows the first bar on which it does not |
| Backtest.CountPeerBuys | alphaTrade/backtest/engine.py:335-352 | each bar's count is the number of peers with enough data whose inference reached the bar and says BUY there |
| Backtest.RunSingleModelWithLag | alphaTrade/backtest/engine.py:309-433 | the loop computes the same walk with each bar's range scaled by its protected fraction |
| LagTheorems.LagRunStarts | alphaTrade/backtest/engine.py:327-333 | the lagged run is no data below window + 2 bars and otherwise the walk from bar window + 50 |
| LagTheorems.LagOfBar | alphaTrade/backtest/engine.py:335-374 | each bar's fraction, in seconds of the bar, from the peers counted on it, and the window the model is shown |
| LagTheorems.PeersBuyingIs | alphaTrade/backtest/engine.py:335-352 | the count is the number of peers with a signal for every bar, none raised up to this bar, and a BUY on it |
| BacktestHistory.RunIsHistory | alphaTrade/backtest/engine.py:235-306 | every trade of a run is explained bar by bar: entered by the first signal after the last exit, sized on the equity at hand, ended by its earliest cause; no entry is missed; equity is the initial one plus all P&L |
| BacktestHistory.HistoryUnique | alphaTrade/backtest/engine.py:235-306 | only one trade list fits that account |
| BacktestHistory.RunIffHistory | alphaTrade/backtest/engine.py:235-306 | a list fits the account if and only if it is the list the run makes |
| BacktestHistory.RunFailsIff | alphaTrade/backtest/engine.py:253-260 | a run raises if and only if inference raises on a bar of the walk or, after some explained trades, the next entry signal fills at price zero |
| BacktestHistory.ExitUnique | alphaTrade/backtest/engine.py:57-73 | a position has one earliest cause of exit, hence one exit |
| BacktestHistory.FirstTouch | alphaTrade/backtest/engine.py:57-114 | for either runner, in the prices it looks at: before its cause no bar of a trade touches a level or opposes it; a bar touching both exits at the stop; a signal exit's bar touches neither |
| BacktestHistory.HitIff | alphaTrade/backtest/engine.py:57-114 | for either runner: the stop when it is reached, else the target when that is, else nothing, in the prices looked at |
| BacktestPrices.BarsOfTrade | alphaTrade/backtest/engine.py:57-114 | no bar before the cause reaches a level in the range looked at; a level exit reaches its level, from the right side, with the stop before the target |
| BacktestPrices.PlainBarsOfTrade | alphaTrade/backtest/engine.py:57-73 | the same in the bars' own highs and lows for the plain runner |
| BacktestPrices.LaggedBarsOfTrade | alphaTrade/backtest/engine.py:92-114 | and in highs and lows pulled towards the open for the lagged one; an unprotected bar ends no trade at a level |
| BacktestPrices.EntryTerms | alphaTrade/backtest/engine.py:257-283 | a trade is entered on the first signal since the last exit, at the next open against the trader, for the configured share of the equity at hand, with stop and target their percentages away on either side |
| BacktestPrices.ExitTerms | alphaTrade/backtest/engine.py:284-304 | what a trade earned, and the price of a signal exit and of a forced exit |
| BacktestHistory.TradesNeverOverlap | alphaTrade/backtest/engine.py:235-304 | each trade enters no later than it exits, each entry lies after every earlier exit, and a forced exit at the end of data is the last trade |
| BacktestTheorems.NoLookAhead | alphaTrade/backtest/engine.py:190-292 | series that agree through bar k, and both go on, have completed the same trades by k, for any inference function of the window and through the cumulative VWAP |
| BacktestTheorems.MarketsSameEarly | alphaTrade/backtest/engine.py:235-304 | the same for any signals, given that bars, signals and protected fractions agree |
| BacktestTheorems.WindowSame | alphaTrade/backtest/engine.py:198-255 | bars that agree through bar k show the model the same windows through bar k |
| BacktestTheorems.VwapWithinRange | alphaTrade/backtest/engine.py:201-206 | the VWAP lies within any bounds on the prices and is missing exactly while no volume has traded |
| BacktestTheorems.WalkCompletes | alphaTrade/backtest/engine.py:257-260 | inference that does not raise, opens that are not zero and slippage short of 100 percent let a run complete |
| BacktestTheorems.EquityCompounds | alphaTrade/backtest/engine.py:47-54 | every trade multiplies the equity by 1 + size * direction * (exit / entry - 1), less commission, and the final equity is the initial one plus all P&L |
| BacktestTheorems.LongOnlyStaysSolvent | alphaTrade/backtest/engine.py:235-304 | in either runner, long trades of at most the whole equity, without commission, on positive prices, keep equity positive throughout |
| BacktestTheorems.SolventIff | alphaTrade/backtest/engine.py:47-49 | a long trade keeps equity positive; a short one exactly while size times the relative rise is below one |
| BacktestTheorems.SlippageIsAdverse | alphaTrade/backtest/engine.py:52-54 | a BUY fills no lower and a SELL no higher than the open, strictly so when slippage is positive |
| BacktestTheorems.LevelsBracketEntry | alphaTrade/backtest/engine.py:262-269 | stop on the losing side and target on the winning side of the entry, for either side |
| LagTheorems.FractionAtMostOne | alphaTrade/backtest/engine.py:76-89 | the protected fraction lies in 0..1, is 1 at the head of the queue, and is 0 exactly when the lag fills the bar |
| LagTheorems.FractionIs | alphaTrade/backtest/engine.py:76-89 | the protected seconds of a bar are its length less the queue's lag, if anything |
| LagTheorems.FractionAntitone | alphaTrade/backtest/engine.py:76-89 | a deeper queue position protects no more of the bar |
| LagTheorems.LessProtectionFewerHits | alphaTrade/backtest/engine.py:92-114 | less protection never turns a bar without a hit into a hit |
| LagTheorems.LagNeverEarlier | alphaTrade/backtest/engine.py:359-391 | from the same entry and signals, queueing deeper never makes a stop or target exit earlier |
| LagTheorems.MorePeersDeeper | alphaTrade/backtest/engine.py:366-374 | more peers buying on the bars on which a position can be checked is queueing deeper in that sense |
| LagTheorems.NoPeersNoLag | alphaTrade/backtest/engine.py:309-433 | when no peer buys on any bar on which a position can be checked, the lagged runner makes the plain runner's trades, for a model that does not use the VWAP column |
| LagTheorems.FullProtectionWalk | alphaTrade/backtest/engine.py:104-105 | full protection on every bar on which a position can be checked is no lag at all, on any signals |
| LagTheorems.LagNoLookAhead | alphaTrade/backtest/engine.py:335-391 | with lag: series that agree through bar k, and whose peers' counts do, have completed the same trades by k |
| LagTheorems.PeersAgreeCounts | alphaTrade/backtest/engine.py:335-352 | counts agree when each peer is long enough for both runs or for neither and its signals agree through k |
| LagTheorems.LongerRunDropsPeer | alphaTrade/backtest/engine.py:343-344 | the input: one more bar, and a peer that buys on every bar counts on none |
| LagTheorems.LagLookAheadIff | alphaTrade/backtest/engine.py:335-391 | the lagged runner never looks ahead, over all configurations, series and inference functions, if and only if the counts agree through k |
| Reporter.ComputeSummary | alphaTrade/backtest/reporter.py:7-53 | totals, win rate, drawdown and breakdown of the trade list; raises exactly when a running peak is zero |
| Reporter.WinsIs | alphaTrade/backtest/reporter.py:21-22 | wins are the trades with positive P&L |
| Reporter.TotalPnlIs | alphaTrade/backtest/reporter.py:20 | the total is the sum of the trades' P&L |
| Reporter.ByModel | alphaTrade/backtest/reporter.py:36-45 | one entry per model id that occurs, with that model's trades, P&L and wins |
| Reporter.StatsAreOfModel | alphaTrade/backtest/reporter.py:36-45 | a model's entry is the summary of its trades alone |
| Reporter.MaxDrawdown | alphaTrade/backtest/reporter.py:24-34 | the one-pass loop over running equity and peak |
| Reporter.EquityIs | alphaTrade/backtest/reporter.py:25-29 | equity at any time is the initial one and the P&L so far |
| Reporter.FallPctIs | alphaTrade/backtest/reporter.py:32 | a fall is counted in hundredths of where it starts |
| Reporter.DrawdownIsMaximum | alphaTrade/backtest/reporter.py:24-34 | for a positive start and equity never below zero the one-pass number is attained by, and bounds, the fall between any two points in time |
| Reporter.DrawdownIsMaximumIff | alphaTrade/backtest/reporter.py:24-34 | for a positive start it is always some fall, and the greatest one if and only if the fall from the lowest earlier positive equity to every point below zero is covered by some fall from the running peak |
| Reporter.OnePassIsGreatestPeakFall | alphaTrade/backtest/reporter.py:24-34 | for a positive start the one-pass number is the greatest of the falls from the running peak |
| Reporter.PeakFallIsGreatestIff | alphaTrade/backtest/reporter.py:27-32 | to one end point, the fall from the running peak is the greatest if and only if equity is not below zero there or had no other positive level before |
| Reporter.BelowZeroUndercounts | alphaTrade/backtest/reporter.py:24-34 | the input: from 10 to 5 to -5 the number is 150 percent and the greatest fall 200 |
| Reporter.BelowZeroMayBeExact | alphaTrade/backtest/reporter.py:24-34 | from 10 straight to -5 both are 150 percent |
| Reporter.BreakdownSumsToTotals | alphaTrade/backtest/reporter.py:36-45 | over all models once each, trades, P&L and wins add up to the totals |
| Performance.ModelPerformance.RecordTrade | alphaTrade/risk/performance.py:30-53 | the new record after a trade, for any lookback |
| Performance.RecordedIs | alphaTrade/risk/performance.py:30-53 | counters, time of the first trade and rolling P&L after a trade; retirement untouched |
| Performance.ModelPerformance.CheckRetirement | alphaTrade/risk/performance.py:56-94 | the verdict and the new record, including the period that does not parse |
| Performance.RetiresIff | alphaTrade/risk/performance.py:62-93 | a check retires a model if and only if it is enabled, the model has traded long or often enough, and too small a share of its window won or the window's sum is too low |
| Performance.EachBreachRetires | alphaTrade/risk/performance.py:71-88 | each breach alone retires, and either way of having enough history suffices |
| Performance.VerdictIs | alphaTrade/risk/performance.py:62-94 | what the caller is told, and when the check raises |
| Performance.WinsIs | alphaTrade/risk/performance.py:84-86 | wins are the trades of the window with positive P&L |
| Performance.SumIs | alphaTrade/risk/performance.py:51 | the sum of a window is additive and that of one trade its P&L |
| Performance.RecordMatchesHistory | alphaTrade/risk/performance.py:40-51 | after any history the window is a suffix of all trades, the rolling P&L its sum, the counters cover every trade |
| Performance.WindowFitsIffLookbackPositive | alphaTrade/risk/performance.py:40-43 | the window fits its lookback if and only if the lookback is at least one |
| Performance.ZeroLookbackKeepsAll | alphaTrade/risk/performance.py:42-43 | with lookback zero nothing is dropped |
| Performance.NegativeLookback | alphaTrade/risk/performance.py:42-43 | a negative lookback takes that many of the oldest off |
| Performance.FixedLookbackWindow | alphaTrade/risk/performance.py:40-43 | with one lookback throughout the window is exactly the last min(n, lookback) trades |
| Performance.RetiredForGood | alphaTrade/risk/performance.py:68-94 | once retired, no later trade or check clears the flag or its time |
| Performance.RetiredOnlyByCheck | alphaTrade/risk/performance.py:62-89 | a retired model was retired by an enabled check that found it evaluated and below a threshold |
| Throttle.EndpointThrottle.Acquire | alphaTrade/broker/throttle.py:29-43 | an endpoint without a positive gap is not limited; any other waits exactly until its gap after its last stamp is over, and its new stamp is at least that gap after |
| Throttle.GrantsSpaced | alphaTrade/broker/throttle.py:29-43 | in any run over any endpoints, consecutive grants of one endpoint are at least its gap apart |
| Throttle.RateBound | alphaTrade/broker/throttle.py:29-43 | at most floor(T / gap) + 1 grants of an endpoint fall within any window of length T |
| BarClose.BoundaryAround | alphaTrade/scheduler/bar_close.py:38-41 | the bars elapsed are those whose boundary lies at or before now |
| BarClose.MarginsAre | alphaTrade/scheduler/bar_close.py:11-18 | the safety margins |
| BarClose.IntradayTargetIs | alphaTrade/scheduler/bar_close.py:36-43 | the target is the next whole multiple of the bar's length, plus the margin |
| BarClose.TargetAhead | alphaTrade/scheduler/bar_close.py:36-43 | the target lies more than the margin and at most a period plus the margin ahead |
| BarClose.EarliestIffMarginOver | alphaTrade/scheduler/bar_close.py:36-43 | the target is the earliest boundary-plus-margin to come if and only if the last boundary's margin is over |
| BarClose.StartedWithinMargin | alphaTrade/scheduler/bar_close.py:36-43 | the input: five seconds past an hour, the hourly target is an hour later than the bar just closed |
| BarClose.NextTarget | alphaTrade/scheduler/bar_close.py:150-170 | the next target is later by one period plus one for every boundary crossed meanwhile |
| BarClose.CrossedBoundaries | alphaTrade/scheduler/bar_close.py:150-170 | the boundaries crossed are those after the target's own and not after the return |
| BarClose.OnePeriodLaterIff | alphaTrade/scheduler/bar_close.py:150-170 | no bar is skipped if and only if the loop is back before the next boundary |
| BarClose.ScheduleBarClose | alphaTrade/scheduler/bar_close.py:138-170 | the callback runs for exactly the targets of the turns before the stop that fire |
| BarClose.RunTurn | alphaTrade/scheduler/bar_close.py:150-170 | one turn: daily and weekly ticks always fire, intraday ones while the market is open or in extended hours; and the clock afterwards |
| BarClose.FiresIff | alphaTrade/scheduler/bar_close.py:165-169 | a tick fires if and only if the bar is daily or weekly, the market is open, or trading is in extended hours |
| BarClose.NextDaily | alphaTrade/scheduler/bar_close.py:46-74 | the target of the ten-day search, else the midnight arithmetic, whatever the calendar answers |
| BarClose.NextWeekly | alphaTrade/scheduler/bar_close.py:77-105 | the same over the Fridays of fourteen days |
| BarClose.SearchFindsFirst | alphaTrade/scheduler/bar_close.py:55-66 | a search finds a target if and only if it is that of the first considered day that is not passed over: a session whose close plus margin is still to come, with no lookup raising before |
| BarClose.SessionTargetIs | alphaTrade/scheduler/bar_close.py:46-105 | the target is thirty seconds after the first close still to come in that sense, of ten days, or of the Fridays among fourteen |
| BarClose.PeriodTargetIs | alphaTrade/scheduler/bar_close.py:69-105 | without one, or when a lookup raises first, or without a calendar, it is that of the fixed period |
| BarClose.IsFridayIff | alphaTrade/scheduler/bar_close.py:88 | Fridays are 2 January 1970 and every seventh day from there |
| BarClose.NextBarClose | alphaTrade/scheduler/bar_close.py:124-135 | the rule of the interval, or the error for an interval not in the table |
| BarClose.NextAhead | alphaTrade/scheduler/bar_close.py:124-135 | the target lies ahead, whatever the calendar says or fails to say |
| BarClose.TargetsIncrease | alphaTrade/scheduler/bar_close.py:150-170 | over any run, for every interval and any calendars, targets increase strictly and the fired ones are among them: no bar's callback runs twice |
| BarClose.TargetsPeriodsApart | alphaTrade/scheduler/bar_close.py:150-170 | in the fixed-period arithmetic, any two targets of a run are a positive whole number of periods apart |

## Left out

- The drain's cancellation path, stop_drain's timeout and the exit on `_stopping`: broker runs are runs before cancellation.
- heapq's array layout: the heap is a list from which a least entry is taken.
- Waiting inside one poll or request: how many fill-price polls there is time for is an input.
- The wire, retries and HTTP errors: a placement that raises is taken as not placed.
- Database sessions: a repository is a map from ticker to row; row ids, user ids and the interval and cooldown-seconds columns are not part of this model.
- Lifecycle.BuyLifecycle: follows one order while no other order or callback touches its ticker; interleaved callbacks on one ticker are not part of this model.
- Positions.OnBuyFill: asks for a positive quantity, which is what alphaTrade/main.py:768-787 sends to the broker.
- Order rows, alerts, webhooks, metrics and the table of running monitor tasks in the fill callback.
- Positions.BuysThenSell: states the SELL of the whole holding; a SELL of another quantity journals its own quantity against the average.
- Backtest.PrecomputeVwap: computes the VWAP column for data without one; a VWAP column the data brings is kept by the code, and the constant Transactions column adds nothing to compute.
- Inference, features and normalisation are one arbitrary function of the window, which may raise; a VWAP column the data brings along, the constant Transactions column and the fundamentals are part of what that function is told.
- `run_backtest`'s loop over models and its recording of runs.
- Reporter.ComputeSummary: does not round P&L and drawdown for display; floating-point rounding is left out everywhere.
- The length of a cooldown, a number of bars of the order's interval, is an input.
- The journal's columns for stop and target price.
- Risk gates, sizing, consensus, model sync, settings, API and scheduling of backtests.
