/** One BUY order from the market to its exit, across the three components that handle
    it: _process_one places it (alphaTrade/broker/async_broker.py), the fill callback
    books it and starts the monitor (alphaTrade/main.py), and monitor_oco watches the
    bracket (alphaTrade/broker/oco_monitor.py). */
module Lifecycle {
  import opened Wrappers
  import opened Trading
  import opened OrderQueue
  import opened Positions
  import opened Bracket
  import Performance

  // How far an order has got.
  datatype Fate =
    | NotFilled               // stale, or refused by the exchange
    | Unprotected             // filled, without a bracket
    | Watched                 // filled, the monitor still polling
    | Closed(exit: Exit)      // filled, the monitor has ended

  // The environment's part: the two clock readings, the market order, the placement, the
  // poll rounds and the clock at each of them.
  datatype Scenario = Scenario(
    now: real,
    market: Option<MarketAnswer>,
    placement: Placement,
    filledAt: real,
    polls: seq<Poll>,
    clock: seq<real>)

  // The monitor is told the price, levels and quantity of the fill that started it.
  function WatchOf(r: OrderRequest, model: string, price: real, at: real, cooldown: real,
                   cfg: Performance.RetirementConfig): Watch {
    Watch(r.ticker, price, StopPrice(price, r.stopLossPct), LimitPrice(price, r.takeProfitPct), r.quantity,
          model, at, cooldown, cfg)
  }

  function BuyOf(r: OrderRequest, model: string, price: real, at: real): BuyFill {
    BuyFill(Fill(r.quantity, price), at, r.stopLossPct, r.takeProfitPct, model)
  }

  // What the fill callback makes of the table, bracket ids aside.
  ghost predicate HoldsBought(rows: Rows, before: Rows, ticker: string, buy: BuyFill)
    requires buy.fill.quantity > 0.0
  {
    && ticker in rows
    && rows[ticker].quantity == AfterBuy(before, ticker, buy)[ticker].quantity
    && rows[ticker].avgEntry == AfterBuy(before, ticker, buy)[ticker].avgEntry
  }

  // The row carries the ids of both legs.
  predicate RemembersIds(rows: Rows, ticker: string, ids: Ids) {
    ticker in rows && rows[ticker].stopOrderId == Some(ids.stop) && rows[ticker].limitOrderId == Some(ids.limit)
  }

  // The monitor has seen a leg filled.
  predicate ByFill(fate: Fate) {
    fate.Closed? && (fate.exit.StopFilled? || fate.exit.LimitFilled?)
  }

  // How the legs stand to the table once the monitor has ended: it was closed exactly when
  // the deciding round saw a leg filled, so exactly when a leg has filled except for a fill
  // the round could not see, which leaves it held and unbooked; and both legs have filled
  // exactly when both were seen so or the second filled late.
  ghost predicate LegsTell(fate: Fate, legs: Legs, seen: Legs, atCancel: Legs)
    requires fate.Closed?
  {
    && (ByFill(fate) <==> seen.stop.Filled? || seen.limit.Filled?)
    && ((ByFill(fate) <==> (legs.stop.Filled? || legs.limit.Filled?)) <==> !FilledUnseen(fate.exit, seen, atCancel))
    && (legs.stop.Filled? && legs.limit.Filled? <==> FilledTwice(fate.exit, seen, atCancel))
  }

  // The price of a closing fill: the one the exchange reported for the leg, or the level
  // at which the leg stands.
  ghost predicate PricedByLeg(fate: Fate, seen: Legs, slPrice: real, tpPrice: real) {
    && (ByFill(fate) && fate.exit.StopFilled? ==>
          seen.stop.Filled? && PricedAt(fate.exit.price, seen.stop.fillPrice, slPrice))
    && (ByFill(fate) && fate.exit.LimitFilled? ==>
          seen.limit.Filled? && PricedAt(fate.exit.price, seen.limit.fillPrice, tpPrice))
  }

  // The levels of an order: its percentages below and above its fill.
  ghost predicate PricedByOrder(fate: Fate, seen: Legs, r: OrderRequest, fillPrice: real) {
    PricedByLeg(fate, seen, fillPrice - fillPrice * r.stopLossPct, fillPrice + fillPrice * r.takeProfitPct)
  }

  lemma PricedByWatch(fate: Fate, seen: Legs, w: Watch, r: OrderRequest, fillPrice: real)
    requires PricedByLeg(fate, seen, w.slPrice, w.tpPrice)
    requires w.slPrice == StopPrice(fillPrice, r.stopLossPct) && w.tpPrice == LimitPrice(fillPrice, r.takeProfitPct)
    ensures PricedByOrder(fate, seen, r, fillPrice)
  {
    LevelsAre(fillPrice, r.stopLossPct, r.takeProfitPct);
  }

  // What a closing fill books: this order's quantity, between its own price and the leg's.
  ghost predicate BooksExit(journal: seq<JournalEntry>, model: string, fate: Fate, fill: Fill, from: real, at: real)
    requires ByFill(fate)
  {
    if model == "" then journal == []
    else
      && |journal| == 1
      && journal[0].modelId == model && journal[0].entryTime == from && journal[0].exitTime == at
      && journal[0].exitReason == (if fate.exit.StopFilled? then "OCO_SL" else "OCO_TP")
      && journal[0].quantity == fill.quantity
      && journal[0].entryPrice == fill.price && journal[0].exitPrice == fate.exit.price
      && journal[0].realizedPnl == fate.exit.price * fill.quantity - fill.price * fill.quantity
  }

  // The row is cleared although only this order's quantity is booked: that is everything
  // held exactly when nothing was held before the order.
  lemma BookedIsHeldIffFlat(before: Rows, ticker: string, buy: BuyFill)
    requires buy.fill.quantity > 0.0
    ensures AfterBuy(before, ticker, buy)[ticker].quantity == buy.fill.quantity <==> Flat(before, ticker)
  {
  }

  // The monitor of one order, over the rounds the environment grants it.
  method RunMonitor(ex: Exchange, repo: PositionRepo, perf: Performance.ModelPerformance, w: Watch, env: Scenario)
    returns (fate: Fate, journal: seq<JournalEntry>, ghost k: nat)
    requires |env.clock| == |env.polls|
    modifies ex`legs, repo, perf
    ensures fate.Watched? || fate.Closed?
    ensures !ByFill(fate) ==> journal == [] && perf.Record() == old(perf.Record()) && repo.rows == old(repo.rows)
    ensures ByFill(fate) ==>
              && k < |env.clock| && repo.rows == old(repo.rows)[w.ticker := CooldownRow(env.clock[k], w.cooldown)]
              && BooksExit(journal, w.modelId, fate, Fill(w.quantity, w.entryPrice), w.entryTime, env.clock[k])
              && perf.Record() == Booked(old(perf.Record()), Journalled(journal), w.retirement, env.clock[k])
    ensures fate.Closed? ==>
              && k < |env.polls|
              && (NoneLive(ex.legs) <==>
                    NoneLive(LegsAtCancel(old(ex.legs), env.polls, k)) || env.polls[k].cancelTakes)
              && LegsTell(fate, ex.legs, LegsPolledIn(old(ex.legs), env.polls, k),
                          LegsAtCancel(old(ex.legs), env.polls, k))
              && PricedByLeg(fate, LegsPolledIn(old(ex.legs), env.polls, k), w.slPrice, w.tpPrice)
  {
    ghost var placed := ex.legs;
    var exit;
    exit, k, journal := MonitorOco(ex, repo, perf, w, env.polls, env.clock);
    if exit.None? {
      return Watched, journal, k;
    }
    MonitorLeavesNoLeg(placed, env.polls, k, exit.value, w.slPrice, w.tpPrice);
    ClosedIffFilled(placed, env.polls, k, exit.value, w.slPrice, w.tpPrice);
    ClosedIffSeenFilled(placed, env.polls, k, exit.value, w.slPrice, w.tpPrice);
    return Closed(exit.value), journal, k;
  }

  // The callback: book the fill and, when both ids are there, run the monitor.
  method BookAndWatch(ex: Exchange, repo: PositionRepo, perf: Performance.ModelPerformance,
                      cfg: Performance.RetirementConfig, r: OrderRequest, model: string,
                      cooldown: real, fillPrice: real, ids: Ids, env: Scenario)
    returns (fate: Fate, journal: seq<JournalEntry>, ghost k: nat)
    requires r.quantity > 0.0 && |env.clock| == |env.polls|
    modifies ex`legs, repo, perf
    ensures !fate.NotFilled?
    ensures fate.Unprotected? <==> ids.stop == "" || ids.limit == ""
    ensures fate.Unprotected? ==> ex.legs == old(ex.legs)
    ensures !ByFill(fate) ==>
              && journal == [] && perf.Record() == old(perf.Record())
              && HoldsBought(repo.rows, old(repo.rows), r.ticker,
                             BuyOf(r, model, FillPrice(Some(fillPrice), r.entryPrice), env.filledAt))
    ensures !fate.Unprotected? && !ByFill(fate) ==> RemembersIds(repo.rows, r.ticker, ids)
    ensures ByFill(fate) ==>
              && r.ticker in repo.rows && k < |env.clock| && repo.rows[r.ticker] == CooldownRow(env.clock[k], cooldown)
              && BooksExit(journal, model, fate,
                           Fill(r.quantity, FillPrice(Some(fillPrice), r.entryPrice)), env.filledAt, env.clock[k])
              && perf.Record() == Booked(old(perf.Record()), Journalled(journal), cfg, env.clock[k])
    ensures repo.rows - {r.ticker} == old(repo.rows) - {r.ticker}
    ensures fate.Closed? ==>
              && k < |env.polls|
              && (NoneLive(ex.legs) <==>
                    NoneLive(LegsAtCancel(old(ex.legs), env.polls, k)) || env.polls[k].cancelTakes)
              && LegsTell(fate, ex.legs, LegsPolledIn(old(ex.legs), env.polls, k),
                          LegsAtCancel(old(ex.legs), env.polls, k))
              && PricedByOrder(fate, LegsPolledIn(old(ex.legs), env.polls, k), r,
                               FillPrice(Some(fillPrice), r.entryPrice))
  {
    k, journal := 0, [];
    var price := FillPrice(Some(fillPrice), r.entryPrice);
    OnBuyFill(repo, r.ticker, r.quantity, Some(fillPrice), r.entryPrice, env.filledAt,
              r.stopLossPct, r.takeProfitPct, model, ids.stop, ids.limit);
    if ids.stop == "" || ids.limit == "" {
      return Unprotected, journal, k;
    }
    var w := WatchOf(r, model, price, env.filledAt, cooldown, cfg);
    ghost var placed := ex.legs;
    fate, journal, k := RunMonitor(ex, repo, perf, w, env);
    if fate.Closed? {
      PricedByWatch(fate, LegsPolledIn(placed, env.polls, k), w, r, price);
    }
  }

  // The price at which a filled order is booked.
  function BoughtAt(r: OrderRequest, env: Scenario): real
    requires env.market.Some?
  {
    FillPrice(Some(MarketPrice(env.market.value, r.entryPrice)), r.entryPrice)
  }

  method BuyLifecycle(ex: Exchange, repo: PositionRepo, perf: Performance.ModelPerformance,
                      cfg: Performance.RetirementConfig, r: OrderRequest, model: string,
                      staleMultiplier: real, cooldown: real, env: Scenario)
    returns (fate: Fate, journal: seq<JournalEntry>, ghost k: nat)
    requires r.side == Buy && r.quantity > 0.0
    requires ex.legs == Legs(Absent, Absent) && ex.stopTerms == None && ex.limitTerms == None
    requires |env.clock| == |env.polls|
    modifies ex, repo, perf
    // What was not filled leaves no trace.
    ensures fate.NotFilled? <==>
            env.now > r.signalTs + staleMultiplier * SecondsOr(r.interval, 86400) as real || env.market.None?
    ensures fate.NotFilled? ==> repo.rows == old(repo.rows) && ex.legs == old(ex.legs) && ex.market == old(ex.market)
    // What was filled is at the market once, and is held until the monitor sees a
    // leg filled.
    ensures !fate.NotFilled? ==> ex.market == old(ex.market) + [r.quantity]
    ensures !fate.NotFilled? && !ByFill(fate) ==>
              HoldsBought(repo.rows, old(repo.rows), r.ticker, BuyOf(r, model, BoughtAt(r, env), env.filledAt))
    // Nothing is journalled or put on the model's record but by a leg seen filled.
    ensures !ByFill(fate) ==> journal == [] && perf.Record() == old(perf.Record())
    // A leg seen filled leaves the ticker flat and in cooldown, and this order's quantity
    // is booked once; that is all that was held if and only if the ticker was flat before.
    ensures ByFill(fate) ==>
              && r.ticker in repo.rows && k < |env.clock| && repo.rows[r.ticker] == CooldownRow(env.clock[k], cooldown)
              && Flat(repo.rows, r.ticker)
              && BooksExit(journal, model, fate, Fill(r.quantity, BoughtAt(r, env)), env.filledAt, env.clock[k])
              && perf.Record() == Booked(old(perf.Record()), Journalled(journal), cfg, env.clock[k])
    ensures ByFill(fate) ==>
              var held := AfterBuy(old(repo.rows), r.ticker, BuyOf(r, model, BoughtAt(r, env), env.filledAt));
              held[r.ticker].quantity == r.quantity <==> Flat(old(repo.rows), r.ticker)
    ensures repo.rows - {r.ticker} == old(repo.rows) - {r.ticker}
    // Once the program has let go of the order, no leg of it is live if and only if what
    // was live was taken back, or cancelled by the monitor; and a leg has filled without
    // closing the row exactly when the deciding round could not see it.
    ensures fate.Unprotected? ==> (NoneLive(ex.legs) <==> !WantsBracket(r) || TakenBack(r, env.placement))
    ensures fate.Closed? ==>
              && k < |env.polls|
              && (NoneLive(ex.legs) <==>
                    NoneLive(LegsAtCancel(BracketLegs(r, env.placement), env.polls, k)) || env.polls[k].cancelTakes)
              && LegsTell(fate, ex.legs, LegsPolledIn(BracketLegs(r, env.placement), env.polls, k),
                          LegsAtCancel(BracketLegs(r, env.placement), env.polls, k))
    // A leg's own price is its percentage of the fill away from it, as it was placed.
    ensures fate.Closed? ==>
              PricedByOrder(fate, LegsPolledIn(BracketLegs(r, env.placement), env.polls, k), r, BoughtAt(r, env))
    ensures fate.Watched? || fate.Closed? ==>
              && StopOutAt(ex.stopTerms, r.quantity, MarketPrice(env.market.value, r.entryPrice), r.stopLossPct)
              && LimitOutAt(ex.limitTerms, r.quantity, MarketPrice(env.market.value, r.entryPrice), r.takeProfitPct)
    // While the monitor runs, the row names both legs for a SELL to cancel.
    ensures fate.Watched? ==> RemembersIds(repo.rows, r.ticker, BracketIds(r, env.placement))
  {
    var result := ProcessOne(ex, r, env.now, staleMultiplier, env.market, env.placement);
    if !result.status.MarketFilled? {
      return NotFilled, [], 0;
    }
    BracketAtomic(r, env.placement);
    ProtectedIff(r, env.placement);
    BookedIsHeldIffFlat(repo.rows, r.ticker, BuyOf(r, model, BoughtAt(r, env), env.filledAt));
    fate, journal, k := BookAndWatch(ex, repo, perf, cfg, r, model, cooldown, result.status.fillPrice, result.ids, env);
  }

  // ------------------------------------------------------- a SELL while legs are out

  // The environment's part in a SELL: whether each cancel takes effect, and what the
  // exchange does in between.
  datatype Unwinding = Unwinding(beforeStop: Drift, stopTakes: bool, beforeLimit: Drift, limitTakes: bool)

  predicate Named(id: Option<string>) {
    id.Some? && id.value != ""
  }

  // The legs after the SELL arm has asked to cancel those the row names.
  function LegsUnwound(legs: Legs, row: Option<Position>, u: Unwinding): Legs {
    var l0 := Drifted(legs, u.beforeStop);
    var l1 := if row.Some? && Named(row.value.stopOrderId) then l0.(stop := CancelLeg(l0.stop, u.stopTakes)) else l0;
    var l2 := Drifted(l1, u.beforeLimit);
    if row.Some? && Named(row.value.limitOrderId) then l2.(limit := CancelLeg(l2.limit, u.limitTakes)) else l2
  }

  // The whole SELL arm: the legs the row names are cancelled, then the row is closed.
  method SellFilled(ex: Exchange, repo: PositionRepo, perf: Performance.ModelPerformance,
                    cfg: Performance.RetirementConfig, r: OrderRequest, model: string,
                    exitPrice: real, now: real, cooldown: real, u: Unwinding)
    returns (entry: Option<JournalEntry>)
    modifies ex`legs, repo, perf
    ensures ex.legs == LegsUnwound(old(ex.legs), LookUp(old(repo.rows), r.ticker), u)
    ensures repo.rows == old(repo.rows)[r.ticker := CooldownRow(now, cooldown)]
    ensures entry == SellBooked(LookUp(old(repo.rows), r.ticker), model, r.ticker, exitPrice, r.quantity, now)
    ensures perf.Record() == Booked(old(perf.Record()), entry, cfg, now)
  {
    var pos := repo.Get(r.ticker);
    ex.Elapse(u.beforeStop);
    if pos.Some? && pos.value.stopOrderId.Some? && pos.value.stopOrderId.value != "" {
      ex.CancelStop(u.stopTakes);
    }
    ex.Elapse(u.beforeLimit);
    if pos.Some? && pos.value.limitOrderId.Some? && pos.value.limitOrderId.value != "" {
      ex.CancelLimit(u.limitTakes);
    }
    entry := OnSellFill(repo, perf, cfg, model, r.ticker, exitPrice, r.quantity, now, cooldown);
  }

  // A leg is still live after a SELL exactly when it was so at its turn, and the row did not
  // name it or its cancel did not take effect; the stop leg may yet end while the limit
  // leg has its turn.
  lemma LiveAfterSellIff(legs: Legs, row: Option<Position>, u: Unwinding)
    ensures var after := LegsUnwound(legs, row, u);
            var first := Drifted(legs, u.beforeStop);
            var second := Drifted(first, u.beforeLimit);
            var stopNamed := row.Some? && row.value.stopOrderId.Some? && row.value.stopOrderId != Some("");
            var limitNamed := row.Some? && row.value.limitOrderId.Some? && row.value.limitOrderId != Some("");
            && (after.stop.Live? <==> second.stop.Live? && !(stopNamed && u.stopTakes))
            && (after.limit.Live? <==> second.limit.Live? && !(limitNamed && u.limitTakes))
  {
  }

  // A SELL of a watched position leaves no leg live if and only if the cancel of each leg
  // that was still live then took effect.
  lemma SellLeavesNoLeg(legs: Legs, rows: Rows, ticker: string, ids: Ids, u: Unwinding)
    requires RemembersIds(rows, ticker, ids) && ids.stop != "" && ids.limit != ""
    ensures var stop := Drifted(legs, u.beforeStop).stop;
            var limit := Drifted(Drifted(legs, u.beforeStop), u.beforeLimit).limit;
            var after := LegsUnwound(legs, LookUp(rows, ticker), u);
            NoneLive(after) <==>
              (stop.Live? ==> u.stopTakes || Terminal(u.beforeLimit.stopTo)) && (limit.Live? ==> u.limitTakes)
  {
  }
}
