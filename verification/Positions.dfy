/** Position rows, the repository that updates them in place, and the three writers of
    the table: BUY fills, SELL fills and the start-up reconciliation
    (alphaTrade/store/repos.py, alphaTrade/main.py). */
module Positions {
  import opened Wrappers
  import opened RealMath
  import Performance

  datatype Position = Position(
    quantity: real,
    avgEntry: real,
    openedAt: real,
    lastSignalTs: Option<real>,
    cooldownUntil: Option<real>,
    stopOrderId: Option<string>,
    limitOrderId: Option<string>,
    slPrice: Option<real>,
    tpPrice: Option<real>,
    modelId: Option<string>)

  // One row per ticker.
  type Rows = map<string, Position>

  datatype JournalEntry = JournalEntry(
    modelId: string,
    ticker: string,
    entryPrice: real,
    exitPrice: real,
    quantity: real,
    entryTime: real,
    exitTime: real,
    exitReason: string,
    realizedPnl: real,
    pnlPct: real)

  // What journalling an exit makes of its model's performance record: the trade is
  // recorded, then the model is checked for retirement.
  function Booked(perf: Performance.Perf, entry: Option<JournalEntry>, cfg: Performance.RetirementConfig,
                  now: real): Performance.Perf {
    if entry.None? then perf
    else Performance.Checked(Performance.Recorded(perf, entry.value.realizedPnl, cfg.lookback, now), cfg, now)
  }

  // A booked exit counts as one more trade of its P&L, and then and there retires a model
  // that the check finds to have had enough history and too little success.
  lemma BookedIs(perf: Performance.Perf, e: JournalEntry, cfg: Performance.RetirementConfig, now: real)
    requires !perf.retired
    ensures var r, q := Performance.Recorded(perf, e.realizedPnl, cfg.lookback, now), Booked(perf, Some(e), cfg, now);
            && q == (if q.retired then r.(retired := true, retiredAt := Some(now)) else r)
            && (q.retired <==>
                  && cfg.enabled && cfg.period.Some?
                  && (|| (r.firstTradeAt.Some? && r.firstTradeAt.value + cfg.period.value <= now)
                      || cfg.minTrades <= r.tradeCount)
                  && (Performance.WinsUnder(r.window, cfg.minWinRate) || Performance.Sum(r.window) < cfg.minRollingPnl))
  {
    Performance.RecordedIs(perf, e.realizedPnl, cfg.lookback, now);
    Performance.RetiresIff(Performance.Recorded(perf, e.realizedPnl, cfg.lookback, now), cfg, now);
  }

  method Book(perf: Performance.ModelPerformance, entry: JournalEntry, cfg: Performance.RetirementConfig, now: real)
    modifies perf
    ensures perf.Record() == Booked(old(perf.Record()), Some(entry), cfg, now)
  {
    perf.RecordTrade(entry.realizedPnl, cfg, now);
    var verdict := perf.CheckRetirement(cfg, now);
  }

  // One exit as it is booked, with the configuration of the moment.
  datatype Booking = Booking(entry: JournalEntry, cfg: Performance.RetirementConfig, now: real)

  function AfterBookings(bookings: seq<Booking>): Performance.Perf {
    if bookings == [] then Performance.FRESH
    else
      var b := bookings[|bookings| - 1];
      Booked(AfterBookings(bookings[..|bookings| - 1]), Some(b.entry), b.cfg, b.now)
  }

  function Pnls(bookings: seq<Booking>): seq<real> {
    if bookings == [] then []
    else Pnls(bookings[..|bookings| - 1]) + [bookings[|bookings| - 1].entry.realizedPnl]
  }

  // The performance record of a model agrees with its journal: after any exits the window
  // is a suffix of the journalled P&Ls, the rolling P&L its sum, and the counters cover all.
  lemma {:induction false} RecordMatchesJournal(bookings: seq<Booking>)
    ensures Performance.Summarizes(AfterBookings(bookings), Pnls(bookings))
  {
    if bookings == [] {
    } else {
      var n := |bookings| - 1;
      var b := bookings[n];
      RecordMatchesJournal(bookings[..n]);
      Performance.RecordedSummarizes(AfterBookings(bookings[..n]), Pnls(bookings[..n]),
                                     b.entry.realizedPnl, b.cfg.lookback, b.now);
    }
  }

  function PnlPct(entryPrice: real, exitPrice: real): real {
    if entryPrice == 0.0 then 0.0 else (exitPrice - entryPrice) / entryPrice
  }

  // A percentage of the entry, when there is one.
  lemma PnlPctIs(entryPrice: real, exitPrice: real)
    ensures if entryPrice == 0.0 then PnlPct(entryPrice, exitPrice) == 0.0
            else PnlPct(entryPrice, exitPrice) * entryPrice == exitPrice - entryPrice
  {
  }

  // What an upsert makes of the row that is there: quantity, average, signal time and
  // cooldown are replaced, order ids only when given, everything else is kept.
  function Upserted(rows: Rows, ticker: string, pos: Position): Rows {
    if ticker !in rows then rows[ticker := pos]
    else
      var row := rows[ticker];
      rows[ticker := row.(
        quantity := pos.quantity,
        avgEntry := pos.avgEntry,
        lastSignalTs := pos.lastSignalTs,
        cooldownUntil := pos.cooldownUntil,
        stopOrderId := if pos.stopOrderId.Some? then pos.stopOrderId else row.stopOrderId,
        limitOrderId := if pos.limitOrderId.Some? then pos.limitOrderId else row.limitOrderId)]
  }

  // The row left behind by a closed position: nothing held, and a cooldown.
  function CooldownRow(now: real, cooldown: real): Position {
    Position(0.0, 0.0, now, None, Some(now + cooldown), None, None, None, None, None)
  }

  // The row with the ids of a bracket.
  function WithIds(rows: Rows, ticker: string, stopOrderId: string, limitOrderId: string): Rows
    requires ticker in rows
  {
    rows[ticker := rows[ticker].(stopOrderId := Some(stopOrderId), limitOrderId := Some(limitOrderId))]
  }

  // Field by field: a row that is there takes quantity, average, signal time and cooldown
  // from the given one, an order id only if one is given, and keeps everything else; a
  // ticker without a row takes the given row, and other rows do not change.
  lemma UpsertedIs(rows: Rows, ticker: string, pos: Position)
    ensures var after := Upserted(rows, ticker, pos);
            && ticker in after && after - {ticker} == rows - {ticker}
            && (ticker !in rows ==> after[ticker] == pos)
            && (ticker in rows ==>
                  var was, row := rows[ticker], after[ticker];
                  && row.quantity == pos.quantity && row.avgEntry == pos.avgEntry
                  && row.lastSignalTs == pos.lastSignalTs && row.cooldownUntil == pos.cooldownUntil
                  && row.stopOrderId == (if pos.stopOrderId == None then was.stopOrderId else pos.stopOrderId)
                  && row.limitOrderId == (if pos.limitOrderId == None then was.limitOrderId else pos.limitOrderId)
                  && row.openedAt == was.openedAt && row.modelId == was.modelId
                  && row.slPrice == was.slPrice && row.tpPrice == was.tpPrice)
  {
  }

  // A cooldown row holds nothing, names no order, and runs out the cooldown from now.
  lemma CooldownRowIs(now: real, cooldown: real)
    ensures var row := CooldownRow(now, cooldown);
            && row.quantity == 0.0 && row.avgEntry == 0.0
            && row.cooldownUntil.Some? && row.cooldownUntil.value - now == cooldown
            && row.openedAt == now && row.lastSignalTs == None
            && row.stopOrderId == None && row.limitOrderId == None
            && row.slPrice == None && row.tpPrice == None && row.modelId == None
  {
  }

  class PositionRepo {
    var rows: Rows

    constructor ()
      ensures rows == map[]
    {
      rows := map[];
    }

    function Get(ticker: string): Option<Position>
      reads this
    {
      if ticker in rows then Some(rows[ticker]) else None
    }

    method Upsert(ticker: string, pos: Position)
      modifies this
      ensures rows == Upserted(old(rows), ticker, pos)
    {
      var existing := Get(ticker);
      if existing.Some? {
        var row := existing.value.(quantity := pos.quantity, avgEntry := pos.avgEntry,
          lastSignalTs := pos.lastSignalTs, cooldownUntil := pos.cooldownUntil);
        if pos.stopOrderId.Some? {
          row := row.(stopOrderId := pos.stopOrderId);
        }
        if pos.limitOrderId.Some? {
          row := row.(limitOrderId := pos.limitOrderId);
        }
        rows := rows[ticker := row];
      } else {
        rows := rows[ticker := pos];
      }
    }

    method UpdateOcoIds(ticker: string, stopOrderId: string, limitOrderId: string)
      modifies this
      ensures rows == if ticker in old(rows) then WithIds(old(rows), ticker, stopOrderId, limitOrderId) else old(rows)
    {
      if ticker in rows {
        rows := rows[ticker := rows[ticker].(stopOrderId := Some(stopOrderId), limitOrderId := Some(limitOrderId))];
      }
    }

    method Remove(ticker: string)
      modifies this
      ensures rows == old(rows) - {ticker}
    {
      rows := rows - {ticker};
    }
  }

  // ------------------------------------------------------------------ BUY fills

  datatype Fill = Fill(quantity: real, price: real)

  function StopPrice(fillPrice: real, slPct: real): real {
    fillPrice * (1.0 - slPct)
  }

  function LimitPrice(fillPrice: real, tpPct: real): real {
    fillPrice * (1.0 + tpPct)
  }

  // The stop lies its share of the fill below it, the target its share above.
  lemma LevelsAre(fillPrice: real, slPct: real, tpPct: real)
    ensures StopPrice(fillPrice, slPct) == fillPrice - fillPrice * slPct
    ensures LimitPrice(fillPrice, tpPct) == fillPrice + fillPrice * tpPct
  {
  }

  // The volume-weighted average of a holding and a fill.
  function Blend(avg: real, quantity: real, price: real, added: real): real
    requires quantity > 0.0 && added > 0.0
  {
    (avg * quantity + price * added) / (quantity + added)
  }

  // The row a BUY fill makes of the present one.
  function Bought(row: Option<Position>, fill: Fill, now: real, slPct: real, tpPct: real, model: string): Position
    requires fill.quantity > 0.0
  {
    var slPrice, tpPrice := StopPrice(fill.price, slPct), LimitPrice(fill.price, tpPct);
    if row.Some? && row.value.quantity > 0.0 then
      var total := row.value.quantity + fill.quantity;
      Position(total, Blend(row.value.avgEntry, row.value.quantity, fill.price, fill.quantity),
               row.value.openedAt, Some(now), None, None, None, Some(slPrice), Some(tpPrice), Some(model))
    else
      Position(fill.quantity, fill.price, now, Some(now), None, None, None, Some(slPrice), Some(tpPrice), Some(model))
  }

  // A reported fill price, where a missing or zero one (falsy) gives way to the fallback.
  function FillPrice(reported: Option<real>, fallback: real): real {
    if reported.Some? && reported.value != 0.0 then reported.value else fallback
  }

  function LookUp(rows: Rows, ticker: string): Option<Position> {
    if ticker in rows then Some(rows[ticker]) else None
  }

  // One BUY fill, bracket order ids aside.
  datatype BuyFill = BuyFill(fill: Fill, now: real, slPct: real, tpPct: real, model: string)

  function AfterBuy(rows: Rows, ticker: string, b: BuyFill): Rows
    requires b.fill.quantity > 0.0
  {
    Upserted(rows, ticker, Bought(LookUp(rows, ticker), b.fill, b.now, b.slPct, b.tpPct, b.model))
  }

  // The row after a BUY: signalled now and out of cooldown. A first row also opens now,
  // with the levels and the model of the order; one that was there keeps those, its
  // opening time and the ids of its bracket.
  lemma BoughtRowIs(rows: Rows, ticker: string, b: BuyFill)
    requires b.fill.quantity > 0.0
    ensures var after := AfterBuy(rows, ticker, b);
            && ticker in after && after - {ticker} == rows - {ticker}
            && after[ticker].lastSignalTs == Some(b.now) && after[ticker].cooldownUntil == None
            && (ticker !in rows ==>
                  && after[ticker].openedAt == b.now && after[ticker].modelId == Some(b.model)
                  && after[ticker].slPrice == Some(b.fill.price - b.fill.price * b.slPct)
                  && after[ticker].tpPrice == Some(b.fill.price + b.fill.price * b.tpPct)
                  && after[ticker].stopOrderId == None && after[ticker].limitOrderId == None)
            && (ticker in rows ==>
                  && after[ticker].openedAt == rows[ticker].openedAt && after[ticker].modelId == rows[ticker].modelId
                  && after[ticker].slPrice == rows[ticker].slPrice && after[ticker].tpPrice == rows[ticker].tpPrice
                  && after[ticker].stopOrderId == rows[ticker].stopOrderId
                  && after[ticker].limitOrderId == rows[ticker].limitOrderId)
  {
    LevelsAre(b.fill.price, b.slPct, b.tpPct);
  }

  // A fill reported without a price, or with none but zero, is booked at the fallback.
  lemma FillPriceIs(reported: Option<real>, fallback: real)
    ensures if reported == None || reported == Some(0.0) then FillPrice(reported, fallback) == fallback
            else Some(FillPrice(reported, fallback)) == reported
  {
  }

  // The BUY arm of the fill callback.
  method OnBuyFill(repo: PositionRepo, ticker: string, quantity: real, reported: Option<real>, signalPrice: real,
                   now: real, slPct: real, tpPct: real, model: string, stopOrderId: string, limitOrderId: string)
    requires quantity > 0.0
    modifies repo
    ensures var fill := Fill(quantity, FillPrice(reported, signalPrice));
            var after := AfterBuy(old(repo.rows), ticker, BuyFill(fill, now, slPct, tpPct, model));
            repo.rows == if stopOrderId != "" && limitOrderId != ""
                         then WithIds(after, ticker, stopOrderId, limitOrderId) else after
  {
    var price := FillPrice(reported, signalPrice);
    var slPrice, tpPrice := StopPrice(price, slPct), LimitPrice(price, tpPct);
    var existing := repo.Get(ticker);
    if existing.Some? && existing.value.quantity > 0.0 {
      var total := existing.value.quantity + quantity;
      var avg := Blend(existing.value.avgEntry, existing.value.quantity, price, quantity);
      repo.Upsert(ticker, Position(total, avg, existing.value.openedAt, Some(now), None, None, None,
                                   Some(slPrice), Some(tpPrice), Some(model)));
    } else {
      repo.Upsert(ticker, Position(quantity, price, now, Some(now), None, None, None,
                                   Some(slPrice), Some(tpPrice), Some(model)));
    }
    if stopOrderId != "" && limitOrderId != "" {
      repo.UpdateOcoIds(ticker, stopOrderId, limitOrderId);
    }
  }

  function AfterBuys(rows: Rows, ticker: string, buys: seq<BuyFill>): Rows
    requires forall b <- buys :: b.fill.quantity > 0.0
  {
    if buys == [] then rows
    else
      AfterBuy(AfterBuys(rows, ticker, buys[..|buys| - 1]), ticker, buys[|buys| - 1])
  }

  function TotalQuantity(buys: seq<BuyFill>): real {
    if buys == [] then 0.0 else TotalQuantity(buys[..|buys| - 1]) + buys[|buys| - 1].fill.quantity
  }

  function Cost(fill: Fill): real {
    fill.price * fill.quantity
  }

  function TotalCost(buys: seq<BuyFill>): real {
    if buys == [] then 0.0
    else TotalCost(buys[..|buys| - 1]) + Cost(buys[|buys| - 1].fill)
  }

  // Nothing is held: no row, or a row whose quantity is not positive (a cooldown row).
  predicate Flat(rows: Rows, ticker: string) {
    ticker in rows ==> rows[ticker].quantity <= 0.0
  }

  lemma BlendedAverage(q: real, avg: real, n: real, p: real, lo: real, hi: real)
    requires q > 0.0 && n > 0.0 && lo <= avg <= hi && lo <= p <= hi
    ensures (q + n) * Blend(avg, q, p, n) == avg * q + p * n
    ensures lo <= Blend(avg, q, p, n) <= hi
  {
    SumMono(lo, avg, lo, p, q, n);
    SumMono(avg, hi, p, hi, q, n);
    Distribute(lo, q, n);
    Distribute(hi, q, n);
    DivWithin(avg * q + p * n, q + n, lo, hi);
  }

  // The quantity a row holds, the cost it reproduces, and bounds on its average.
  ghost predicate Holds(row: Position, quantity: real, cost: real, lo: real, hi: real) {
    row.quantity == quantity && quantity > 0.0 && row.quantity * row.avgEntry == cost && lo <= row.avgEntry <= hi
  }

  lemma {:induction false} BuyHolds(rows: Rows, ticker: string, b: BuyFill, quantity: real, cost: real, lo: real,
                                    hi: real)
    requires b.fill.quantity > 0.0 && lo <= b.fill.price <= hi
    requires if Flat(rows, ticker) then quantity == 0.0 && cost == 0.0 else Holds(rows[ticker], quantity, cost, lo, hi)
    ensures Holds(AfterBuy(rows, ticker, b)[ticker], quantity + b.fill.quantity, cost + Cost(b.fill), lo, hi)
  {
    if !Flat(rows, ticker) {
      BlendedAverage(rows[ticker].quantity, rows[ticker].avgEntry, b.fill.quantity, b.fill.price, lo, hi);
    }
  }

  // Cost basis: after any BUY fills from flat, the row holds the sum of the fills, at an
  // average that reproduces their total cost and lies within any bounds on the prices.
  lemma {:induction false} CostBasis(rows: Rows, ticker: string, buys: seq<BuyFill>, lo: real, hi: real)
    requires Flat(rows, ticker) && buys != []
    requires forall b <- buys :: b.fill.quantity > 0.0 && lo <= b.fill.price <= hi
    ensures ticker in AfterBuys(rows, ticker, buys)
    ensures Holds(AfterBuys(rows, ticker, buys)[ticker], TotalQuantity(buys), TotalCost(buys), lo, hi)
  {
    var n := |buys| - 1;
    if n == 0 {
      assert buys[..n] == [];
    } else {
      CostBasis(rows, ticker, buys[..n], lo, hi);
    }
    BuyHolds(AfterBuys(rows, ticker, buys[..n]), ticker, buys[n],
             TotalQuantity(buys[..n]), TotalCost(buys[..n]), lo, hi);
  }

  lemma {:induction false} BuysTouchOneTicker(rows: Rows, ticker: string, buys: seq<BuyFill>)
    requires forall b <- buys :: b.fill.quantity > 0.0
    ensures AfterBuys(rows, ticker, buys) - {ticker} == rows - {ticker}
  {
    if buys == [] {
    } else {
      BuysTouchOneTicker(rows, ticker, buys[..|buys| - 1]);
    }
  }

  // BUY fills that bring no bracket of their own leave the ids of the bracket in place.
  lemma {:induction false} BuysKeepBracketIds(rows: Rows, ticker: string, buys: seq<BuyFill>)
    requires ticker in rows && forall b <- buys :: b.fill.quantity > 0.0
    ensures var after := AfterBuys(rows, ticker, buys);
            && ticker in after
            && after[ticker].stopOrderId == rows[ticker].stopOrderId
            && after[ticker].limitOrderId == rows[ticker].limitOrderId
  {
    if buys == [] {
    } else {
      BuysKeepBracketIds(rows, ticker, buys[..|buys| - 1]);
    }
  }

  // ----------------------------------------------------------------- SELL fills

  function SellJournalEntry(model: string, ticker: string, exitPrice: real, quantity: real, pos: Position,
                            now: real): JournalEntry {
    JournalEntry(model, ticker, pos.avgEntry, exitPrice, quantity, pos.openedAt, now, "SIGNAL_SELL",
                 (exitPrice - pos.avgEntry) * quantity, PnlPct(pos.avgEntry, exitPrice))
  }

  // The entry as a reader of the journal sees it: the row's average and opening, the
  // order's quantity, and what the one earned over the other.
  lemma SellEntryIs(model: string, ticker: string, exitPrice: real, quantity: real, pos: Position, now: real)
    ensures var e := SellJournalEntry(model, ticker, exitPrice, quantity, pos, now);
            && e.modelId == model && e.ticker == ticker && e.quantity == quantity
            && e.entryPrice == pos.avgEntry && e.exitPrice == exitPrice
            && e.entryTime == pos.openedAt && e.exitTime == now && e.exitReason == "SIGNAL_SELL"
            && e.realizedPnl == exitPrice * quantity - pos.avgEntry * quantity
            && (if pos.avgEntry == 0.0 then e.pnlPct == 0.0 else e.pnlPct * pos.avgEntry == exitPrice - pos.avgEntry)
  {
    PnlPctIs(pos.avgEntry, exitPrice);
  }

  // The entry of a SELL fill, when there was a row.
  function SellBooked(row: Option<Position>, model: string, ticker: string, exitPrice: real, quantity: real, now: real)
    : Option<JournalEntry>
  {
    if row.Some? then Some(SellJournalEntry(model, ticker, exitPrice, quantity, row.value, now)) else None
  }

  // The SELL arm: the row is dropped and replaced by a cooldown row, and when there was a
  // row the exit is journalled and booked on the model's performance record.
  method OnSellFill(repo: PositionRepo, perf: Performance.ModelPerformance, cfg: Performance.RetirementConfig,
                    model: string, ticker: string, exitPrice: real, quantity: real, now: real, cooldown: real)
    returns (entry: Option<JournalEntry>)
    modifies repo, perf
    ensures repo.rows == old(repo.rows)[ticker := CooldownRow(now, cooldown)]
    ensures entry == SellBooked(LookUp(old(repo.rows), ticker), model, ticker, exitPrice, quantity, now)
    ensures entry.Some? <==> ticker in old(repo.rows)
    ensures perf.Record() == Booked(old(perf.Record()), entry, cfg, now)
  {
    var pos := repo.Get(ticker);
    repo.Remove(ticker);
    repo.Upsert(ticker, CooldownRow(now, cooldown));
    entry := None;
    if pos.Some? {
      var e := SellJournalEntry(model, ticker, exitPrice, quantity, pos.value, now);
      Book(perf, e, cfg, now);
      entry := Some(e);
    }
  }

  // The entry books the proceeds of a quantity less a cost.
  ghost predicate Nets(entry: JournalEntry, exitPrice: real, quantity: real, cost: real) {
    entry.realizedPnl == exitPrice * quantity - cost
  }

  lemma SoldForCost(pos: Position, quantity: real, cost: real, lo: real, hi: real,
                    model: string, ticker: string, exitPrice: real, now: real)
    requires Holds(pos, quantity, cost, lo, hi)
    ensures Nets(SellJournalEntry(model, ticker, exitPrice, pos.quantity, pos, now), exitPrice, quantity, cost)
  {
    assert (exitPrice - pos.avgEntry) * quantity == exitPrice * quantity - quantity * pos.avgEntry;
  }

  lemma CloseTouchesOneTicker(rows: Rows, held: Rows, ticker: string, now: real, cooldown: real)
    requires held - {ticker} == rows - {ticker}
    ensures var after := held[ticker := CooldownRow(now, cooldown)];
            Flat(after, ticker) && after - {ticker} == rows - {ticker}
  {
    var after := held[ticker := CooldownRow(now, cooldown)];
    assert after - {ticker} == held - {ticker};
  }

  // Round trip: BUY fills from flat and then a SELL of everything held journal exactly
  // the proceeds less the total cost, leave the ticker flat again, and touch no other.
  lemma {:induction false} BuysThenSell(rows: Rows, ticker: string, buys: seq<BuyFill>, model: string,
                                        exitPrice: real, now: real, cooldown: real)
    requires Flat(rows, ticker) && buys != []
    requires forall b <- buys :: b.fill.quantity > 0.0
    ensures var held := AfterBuys(rows, ticker, buys);
            var after := held[ticker := CooldownRow(now, cooldown)];
            && ticker in held
            && Nets(SellJournalEntry(model, ticker, exitPrice, held[ticker].quantity, held[ticker], now),
                    exitPrice, TotalQuantity(buys), TotalCost(buys))
            && Flat(after, ticker)
            && after - {ticker} == rows - {ticker}
  {
    var lo, hi := PriceBounds(buys);
    CostBasis(rows, ticker, buys, lo, hi);
    BuysTouchOneTicker(rows, ticker, buys);
    CloseTouchesOneTicker(rows, AfterBuys(rows, ticker, buys), ticker, now, cooldown);
    SoldForCost(AfterBuys(rows, ticker, buys)[ticker], TotalQuantity(buys), TotalCost(buys), lo, hi,
                model, ticker, exitPrice, now);
  }

  lemma PriceBounds(buys: seq<BuyFill>) returns (lo: real, hi: real)
    ensures forall b <- buys :: lo <= b.fill.price <= hi
  {
    if buys == [] {
      lo, hi := 0.0, 0.0;
    } else {
      var last := buys[|buys| - 1];
      lo, hi := PriceBounds(buys[..|buys| - 1]);
      lo := if last.fill.price < lo then last.fill.price else lo;
      hi := if last.fill.price > hi then last.fill.price else hi;
      forall b | b in buys
        ensures lo <= b.fill.price <= hi
      {
        assert b in buys[..|buys| - 1] || b == last;
      }
    }
  }

  // ----------------------------------------------------------- reconciliation

  function Abs(x: real): real {
    if x < 0.0 then -x else x
  }

  // math.isclose(a, b, rel_tol=1e-4)
  predicate IsClose(a: real, b: real) {
    var bound := if Abs(a) < Abs(b) then Abs(b) else Abs(a);
    Abs(a - b) <= 0.0001 * bound
  }

  // Two quantities are close when they differ by at most a ten-thousandth of the one that
  // is larger in size; so nothing but zero is close to zero.
  lemma IsCloseIff(a: real, b: real)
    ensures var apart := if a < b then b - a else a - b;
            IsClose(a, b) <==>
              || 10000.0 * apart <= a || 10000.0 * apart <= -a
              || 10000.0 * apart <= b || 10000.0 * apart <= -b
    ensures IsClose(a, 0.0) <==> a == 0.0
  {
  }

  // What the broker's portfolio says of a ticker.
  datatype Holding = Holding(quantity: real, averagePricePaid: real)

  predicate Agrees(rows: Rows, ticker: string, h: Holding) {
    ticker in rows && IsClose(rows[ticker].quantity, h.quantity)
  }

  function SyncRow(rows: Rows, ticker: string, h: Holding, now: real): Position {
    var existing := LookUp(rows, ticker);
    Position(h.quantity, h.averagePricePaid, now,
             if existing.Some? then existing.value.lastSignalTs else None,
             if existing.Some? then existing.value.cooldownUntil else None,
             None, None, None, None, None)
  }

  function Synced(rows: Rows, ticker: string, h: Holding, now: real): Position {
    if Agrees(rows, ticker, h) then rows[ticker] else Upserted(rows, ticker, SyncRow(rows, ticker, h, now))[ticker]
  }

  predicate Stale(rows: Rows, ticker: string, held: map<string, Holding>) {
    ticker in rows && rows[ticker].quantity > 0.0 && ticker !in held
  }

  // The table after reconciliation: stale rows gone, agreeing rows as they were,
  // disagreeing or missing ones synchronised, cooldown rows kept.
  function Reconciled(rows: Rows, held: map<string, Holding>, now: real): Rows {
    map t | t in rows.Keys + held.Keys && !Stale(rows, t, held) ::
      if t in held then Synced(rows, t, held[t], now) else rows[t]
  }

  function WithoutStale(rows: Rows, held: map<string, Holding>): Rows {
    map t | t in rows && !Stale(rows, t, held) :: rows[t]
  }

  // A ticker the broker holds is never stale, so its synchronised row is the same.
  lemma TwoLoopsReconcile(rows: Rows, held: map<string, Holding>, now: real, after: Rows)
    requires var kept := WithoutStale(rows, held);
             && after.Keys == kept.Keys + held.Keys
             && (forall t <- kept :: t !in held ==> after[t] == kept[t])
             && (forall t <- held :: after[t] == Synced(kept, t, held[t], now))
    ensures after == Reconciled(rows, held, now)
  {
    forall t | t in held
      ensures Synced(WithoutStale(rows, held), t, held[t], now) == Synced(rows, t, held[t], now)
    {
    }
    assert after.Keys == Reconciled(rows, held, now).Keys;
  }

  // The first loop: local rows with a quantity that the broker does not hold go.
  method RemoveStale(repo: PositionRepo, held: map<string, Holding>)
    modifies repo
    ensures repo.rows == WithoutStale(old(repo.rows), held)
  {
    ghost var start := repo.rows;
    var todo := repo.rows.Keys;
    while todo != {}
      invariant todo <= start.Keys
      invariant repo.rows == map t | t in start && (t in todo || !Stale(start, t, held)) :: start[t]
      decreases todo
    {
      var t :| t in todo;
      if repo.rows[t].quantity > 0.0 && t !in held {
        repo.Remove(t);
      }
      todo := todo - {t};
    }
  }

  // The second loop: held tickers whose row is missing or off are synchronised.
  method SyncHeld(repo: PositionRepo, held: map<string, Holding>, now: real)
    modifies repo
    ensures repo.rows.Keys == old(repo.rows).Keys + held.Keys
    ensures forall t <- old(repo.rows) :: t !in held ==> repo.rows[t] == old(repo.rows)[t]
    ensures forall t <- held :: repo.rows[t] == Synced(old(repo.rows), t, held[t], now)
  {
    ghost var start := repo.rows;
    var left := held.Keys;
    while left != {}
      invariant left <= held.Keys
      invariant repo.rows.Keys == start.Keys + (held.Keys - left)
      invariant forall t <- start :: t in left || t !in held ==> repo.rows[t] == start[t]
      invariant forall t <- held :: t !in left ==> repo.rows[t] == Synced(start, t, held[t], now)
      decreases left
    {
      var t :| t in left;
      var existing := repo.Get(t);
      if existing.None? || !IsClose(existing.value.quantity, held[t].quantity) {
        repo.Upsert(t, SyncRow(repo.rows, t, held[t], now));
      }
      left := left - {t};
    }
  }

  method ReconcilePositions(repo: PositionRepo, held: map<string, Holding>, now: real)
    modifies repo
    ensures repo.rows == Reconciled(old(repo.rows), held, now)
  {
    ghost var rows := repo.rows;
    RemoveStale(repo, held);
    SyncHeld(repo, held, now);
    TwoLoopsReconcile(rows, held, now, repo.rows);
  }

  // The reconciled table, ticker by ticker: which rows there are, what a held ticker's row
  // says, and what it keeps of the row that was there.
  lemma ReconciledIs(rows: Rows, held: map<string, Holding>, now: real, t: string)
    ensures var after := Reconciled(rows, held, now);
            && (t in after <==> t in held || (t in rows && rows[t].quantity <= 0.0))
            && (t in after && t !in held ==> after[t] == rows[t])
            && (t in held && t in rows && IsClose(rows[t].quantity, held[t].quantity) ==> after[t] == rows[t])
            && (t in held && t in rows && !IsClose(rows[t].quantity, held[t].quantity) ==>
                  after[t] == rows[t].(quantity := held[t].quantity, avgEntry := held[t].averagePricePaid))
            && (t in held && t !in rows ==>
                  after[t] == Position(held[t].quantity, held[t].averagePricePaid, now,
                                       None, None, None, None, None, None, None))
  {
  }

  // Reconciling again changes nothing, whenever it is done.
  lemma ReconcileIdempotent(rows: Rows, held: map<string, Holding>, now: real, later: real)
    ensures var once := Reconciled(rows, held, now); Reconciled(once, held, later) == once
  {
    var once := Reconciled(rows, held, now);
    forall t | t in once
      ensures !Stale(once, t, held) && (t in held ==> Agrees(once, t, held[t]))
    {
    }
    assert Reconciled(once, held, later).Keys == once.Keys;
  }

  // Afterwards every row with a quantity is one the broker holds, the broker's holdings
  // all have agreeing rows, and a row without quantity that the broker does not know
  // (a cooldown) is untouched.
  lemma ReconcileMatchesBroker(rows: Rows, held: map<string, Holding>, now: real)
    ensures var once := Reconciled(rows, held, now);
            && (forall t <- once :: once[t].quantity > 0.0 ==> t in held)
            && (forall t <- held :: Agrees(once, t, held[t]))
            && (forall t <- rows :: t !in held && rows[t].quantity <= 0.0 ==> t in once && once[t] == rows[t])
  {
  }
}
