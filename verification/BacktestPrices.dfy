/** What a backtest's trades mean in the bars' own prices: which prices they were entered
    and left at, which levels the bars in between did not reach, what was earned, and what
    the model was shown. */
module BacktestPrices {
  import opened Wrappers
  import opened RealMath
  import opened Trading
  import opened Backtest
  import opened BacktestHistory
  import opened BacktestTheorems

  // --------------------------------------------------------------------- exits

  // A level exit on a bar with this high and low: a long stop was reached from above and a
  // long target from below, the other way round for a short position; and a bar that
  // reaches both exits at the stop.
  ghost predicate ExitsOn(t: Trade, high: real, low: real) {
    var stop, target, x := t.pos.slPrice, t.pos.tpPrice, t.exitPrice;
    match t.reason
    case SL => stop == Some(x) && if t.pos.side == Buy then low <= x else high >= x
    case TP =>
      && target == Some(x)
      && (if t.pos.side == Buy then high >= x else low <= x)
      && (stop.Some? ==> if t.pos.side == Buy then low > stop.value else high < stop.value)
    case _ => false
  }

  // A bar with this high and low reaches neither level of a position.
  ghost predicate PassesBy(pos: Position, high: real, low: real) {
    var stop, target := pos.slPrice, pos.tpPrice;
    && (stop.Some? ==> if pos.side == Buy then low > stop.value else high < stop.value)
    && (target.Some? ==> if pos.side == Buy then high < target.value else low > target.value)
  }

  // The bars of a trade, in either runner and in the range it looks at: none before the bar
  // that ended the trade reaches a level or brings the opposite signal, nor does the one
  // that brings the signal of a signal exit reach a level; and a level exit reaches its
  // level, with the stop before the target.
  lemma BarsOfTrade(cfg: Config, m: Market, start: nat, t: Trade, i: nat)
    requires m.Valid() && |m.bars| > 0 && Run(cfg, m, start).Ran?
    requires t in Run(cfg, m, start).trades && t.pos.entryBar <= i <= t.exitBar
    ensures i < |m.bars|
    ensures var seen := LookAt(m, i);
            var cause := if t.reason == SIGNAL then t.exitBar - 1 else t.exitBar;
            && (i < cause ==> m.signals[i] != Go(if t.pos.side == Buy then Sell else Buy))
            && (i < cause || (i == cause && t.reason == SIGNAL) ==>
                  seen.Range? ==> PassesBy(t.pos, seen.high, seen.low))
            && (i == cause && (t.reason == SL || t.reason == TP) ==>
                  seen.Range? && ExitsOn(t, seen.high, seen.low))
  {
    var j := TradeIndex(cfg, m, start, t);
    FirstTouch(cfg, m, start, t, i);
    if LookAt(m, i).Range? {
      ReachedIff(t.pos, LookAt(m, i).high, LookAt(m, i).low);
    }
  }

  lemma ReachedIff(pos: Position, high: real, low: real)
    ensures var seen := Range(high, low);
            PassesBy(pos, high, low) <==> !StopReached(pos, seen) && !TargetReached(pos, seen)
  {
  }

  // For the plain runner that is the bar's own high and low.
  lemma PlainBarsOfTrade(cfg: Config, m: Market, start: nat, t: Trade, i: nat)
    requires m.Valid() && |m.bars| > 0 && m.checker.Plain? && Run(cfg, m, start).Ran?
    requires t in Run(cfg, m, start).trades && t.pos.entryBar <= i <= t.exitBar
    ensures i < |m.bars|
    ensures i < t.exitBar ==> PassesBy(t.pos, m.bars[i].high, m.bars[i].low)
    ensures i == t.exitBar && (t.reason == SL || t.reason == TP) ==> ExitsOn(t, m.bars[i].high, m.bars[i].low)
  {
    BarsOfTrade(cfg, m, start, t, i);
  }

  // For the lagged runner, on a bar it protects in part, it is the high and the low pulled
  // towards the open by that fraction; a bar it does not protect ends no trade at a level.
  lemma LaggedBarsOfTrade(cfg: Config, m: Market, start: nat, t: Trade, i: nat)
    requires m.Valid() && |m.bars| > 0 && m.checker.Lagged? && Run(cfg, m, start).Ran?
    requires t in Run(cfg, m, start).trades && t.pos.entryBar <= i <= t.exitBar
    ensures i < |m.bars|
    ensures var bar, f := m.bars[i], m.checker.fractions[i];
            var high, low := Pulled(bar.open, bar.high, f), Pulled(bar.open, bar.low, f);
            && (0.0 < f < 1.0 && i < t.exitBar ==> PassesBy(t.pos, high, low))
            && (0.0 < f < 1.0 && i == t.exitBar && (t.reason == SL || t.reason == TP) ==> ExitsOn(t, high, low))
            && (f <= 0.0 && i == t.exitBar ==> t.reason != SL && t.reason != TP)
  {
    BarsOfTrade(cfg, m, start, t, i);
  }

  // Where a trade stands in the list, and the account of it.
  lemma TradeIndex(cfg: Config, m: Market, start: nat, t: Trade) returns (j: nat)
    requires m.Valid() && |m.bars| > 0 && Run(cfg, m, start).Ran?
    requires t in Run(cfg, m, start).trades
    ensures j < |Run(cfg, m, start).trades| && Run(cfg, m, start).trades[j] == t
    ensures ExplainedAt(cfg, m, start, Run(cfg, m, start).trades, j)
  {
    RunIsHistory(cfg, m, start);
    var trades := Run(cfg, m, start).trades;
    j :| 0 <= j < |trades| && trades[j] == t;
  }

  // ------------------------------------------------- fills, levels and earnings

  // A fill is the open moved against the trader by so many hundredths of a percent.
  ghost predicate FillsAt(side: Side, open: real, bps: int, price: real) {
    price * 10000.0 == open * (if side == Buy then 10000 + bps else 10000 - bps) as real
  }

  lemma FillIs(side: Side, open: real, bps: int)
    ensures FillsAt(side, open, bps, SimulateFill(side, open, bps))
  {
    var slip := bps as real / 10000.0;
    assert slip * 10000.0 == bps as real;
    assert open * (1.0 + slip) * 10000.0 == open * (10000.0 + slip * 10000.0);
    assert open * (1.0 - slip) * 10000.0 == open * (10000.0 - slip * 10000.0);
  }

  // A level lies its percentage away from the entry, above or below it.
  ghost predicate LevelAt(level: Option<real>, pct: Option<real>, entry: real, above: bool) {
    if pct.None? then level.None?
    else level.Some? && level.value * 100.0 == entry * (if above then 100.0 + pct.value else 100.0 - pct.value)
  }

  lemma LevelIs(entry: real, pct: real)
    ensures LevelPrice(entry, 1.0, pct) * 100.0 == entry * (100.0 + pct)
    ensures LevelPrice(entry, -1.0, pct) * 100.0 == entry * (100.0 - pct)
  {
    var share := pct / 100.0;
    assert 1.0 * pct / 100.0 == share && -1.0 * pct / 100.0 == -share;
    assert entry * (1.0 + share) * 100.0 == entry * (100.0 + share * 100.0);
    assert entry * (1.0 - share) * 100.0 == entry * (100.0 - share * 100.0);
  }

  // A position is entered for a share of the equity, its stop on the losing side of the
  // entry and its target on the winning one.
  ghost predicate OpenedWith(cfg: Config, pos: Position, equity: real) {
    && pos.quantity * pos.entryPrice == equity * cfg.sizePct
    && LevelAt(pos.slPrice, cfg.slPct, pos.entryPrice, pos.side == Sell)
    && LevelAt(pos.tpPrice, cfg.tpPct, pos.entryPrice, pos.side == Buy)
  }

  lemma OpenedIs(cfg: Config, equity: real, side: Side, price: real, entryBar: nat)
    requires price != 0.0
    ensures OpenedWith(cfg, OpenPosition(cfg, equity, side, price, entryBar), equity)
  {
    assert equity * cfg.sizePct / price * price == equity * cfg.sizePct;
    if cfg.slPct.Some? {
      LevelIs(price, cfg.slPct.value);
    }
    if cfg.tpPct.Some? {
      LevelIs(price, cfg.tpPct.value);
    }
  }

  // The terms of the j-th trade: entered on the first signal since the last exit, at the
  // next open against the trader, for the configured share of the equity at hand.
  lemma EntryTerms(cfg: Config, m: Market, start: nat, j: nat)
    requires m.Valid() && |m.bars| > 0 && Run(cfg, m, start).Ran? && j < |Run(cfg, m, start).trades|
    ensures var trades := Run(cfg, m, start).trades;
            var pos, from := trades[j].pos, if j == 0 then start else trades[j - 1].exitBar;
            && from < pos.entryBar < |m.bars|
            && (forall i :: from <= i < pos.entryBar - 1 ==> m.signals[i] == Hold)
            && m.signals[pos.entryBar - 1] == Go(pos.side)
            && FillsAt(pos.side, m.bars[pos.entryBar].open, cfg.slippageBps, pos.entryPrice)
            && OpenedWith(cfg, pos, EquityAt(cfg, trades, j))
  {
    RunIsHistory(cfg, m, start);
    var trades := Run(cfg, m, start).trades;
    var pos := trades[j].pos;
    assert ExplainedAt(cfg, m, start, trades, j);
    assert j > 0 ==> trades[..j][j - 1] == trades[j - 1];
    FillIs(pos.side, m.bars[pos.entryBar].open, cfg.slippageBps);
    OpenedIs(cfg, EquityAt(cfg, trades, j), pos.side, pos.entryPrice, pos.entryBar);
  }

  // What a position earned: the rise for a long one, the fall for a short one, on the whole
  // quantity, less the commission.
  ghost predicate Earned(cfg: Config, pos: Position, exitPrice: real, pnl: real) {
    var gain := if pos.side == Buy then exitPrice - pos.entryPrice else pos.entryPrice - exitPrice;
    pnl + cfg.commission == gain * pos.quantity
  }

  lemma RealizedIs(cfg: Config, pos: Position, exitPrice: real)
    ensures Earned(cfg, pos, exitPrice, Realized(cfg, pos, exitPrice))
  {
    assert -1.0 * (exitPrice - pos.entryPrice) == pos.entryPrice - exitPrice;
  }

  // What a trade earned, and the price of an exit that no level decided.
  lemma ExitTerms(cfg: Config, m: Market, start: nat, t: Trade)
    requires m.Valid() && |m.bars| > 0 && Run(cfg, m, start).Ran?
    requires t in Run(cfg, m, start).trades
    ensures Earned(cfg, t.pos, t.exitPrice, t.pnl)
    ensures t.pos.entryBar <= t.exitBar < |m.bars|
    ensures t.reason == SIGNAL ==>
              var out := if t.pos.side == Buy then Sell else Buy;
              && t.pos.entryBar < t.exitBar && m.signals[t.exitBar - 1] == Go(out)
              && FillsAt(out, m.bars[t.exitBar].open, cfg.slippageBps, t.exitPrice)
    ensures t.reason == END_OF_DATA ==> t.exitBar == |m.bars| - 1 && t.exitPrice == m.bars[t.exitBar].close
  {
    var j := TradeIndex(cfg, m, start, t);
    RealizedIs(cfg, t.pos, t.exitPrice);
    FillIs(if t.pos.side == Buy then Sell else Buy, m.bars[t.exitBar].open, cfg.slippageBps);
  }

  // ------------------------------------------------------- what the model is shown

  // From the warm-up on the model is shown the bar and the window + 50 bars before it.
  lemma WindowShown(bars: seq<Bar>, window: nat, usesVwap: bool, infer: seq<Row> -> Signal, i: nat)
    requires window + 50 <= i < |bars|
    ensures var shown := Rows(bars, usesVwap)[i - window - 50..i + 1];
            && PlainMarket(bars, window, usesVwap, infer).signals[i] == infer(shown)
            && |shown| == window + 51
            && forall j :: 0 <= j < |shown| ==>
                 shown[j].bar == bars[i - window - 50 + j] && (shown[j].vwap == Absent <==> !usesVwap)
  {
    assert WindowAt(Rows(bars, usesVwap), WarmupBars(window), i) == Rows(bars, usesVwap)[i - window - 50..i + 1];
  }

  // The VWAP of a row mixes that of the row before with the bar's own typical price, the
  // mean of high, low and close, by volume.
  lemma VwapMixes(bars: seq<Bar>, i: nat)
    requires i < |bars|
    ensures var v, bar := Rows(bars, true)[i].vwap, bars[i];
            var before := if i == 0 then NaN else Rows(bars, true)[i - 1].vwap;
            var spent := if before.Value? then before.value * CumVolume(bars, i) else CumTpv(bars, i);
            v.Value? ==>
              3.0 * (v.value * CumVolume(bars, i + 1)) == 3.0 * spent + (bar.high + bar.low + bar.close) * bar.volume
    ensures CumVolume(bars, i + 1) == CumVolume(bars, i) + bars[i].volume
    ensures CumVolume(bars, 0) == 0.0 && CumTpv(bars, 0) == 0.0
  {
    var total, volume := CumTpv(bars, i + 1), CumVolume(bars, i + 1);
    if volume != 0.0 {
      assert total / volume * volume == total;
    }
    if i > 0 && CumVolume(bars, i) != 0.0 {
      assert CumTpv(bars, i) / CumVolume(bars, i) * CumVolume(bars, i) == CumTpv(bars, i);
    }
    var sum := bars[i].high + bars[i].low + bars[i].close;
    assert 3.0 * (sum / 3.0 * bars[i].volume) == sum * bars[i].volume;
  }

  // Too short a series is no data; one without a bar beyond the warm-up makes no trade.
  lemma ShortSeries(cfg: Config, bars: seq<Bar>, window: nat, usesVwap: bool, infer: seq<Row> -> Signal)
    ensures PlainRun(cfg, bars, window, usesVwap, infer) == NoData <==> |bars| < window + 2
    ensures window + 2 <= |bars| < window + 52 ==>
              PlainRun(cfg, bars, window, usesVwap, infer) == Ran([], cfg.initialEquity)
  {
  }

  // A run makes no trade exactly when the model holds on every bar it is asked about, from
  // bar window + 50 up to the last but one; else the first trade is entered after the first
  // bar on which it does not hold.
  lemma FirstEntry(cfg: Config, bars: seq<Bar>, window: nat, usesVwap: bool, infer: seq<Row> -> Signal)
    requires PlainRun(cfg, bars, window, usesVwap, infer).Ran?
    ensures var trades, signals := PlainRun(cfg, bars, window, usesVwap, infer).trades,
                                   PlainMarket(bars, window, usesVwap, infer).signals;
            && (trades == [] <==> forall i :: window + 50 <= i < |bars| - 1 ==> signals[i] == Hold)
            && (trades != [] ==>
                  var e := trades[0].pos.entryBar;
                  && window + 50 < e < |bars| && signals[e - 1] != Hold
                  && forall i :: window + 50 <= i < e - 1 ==> signals[i] == Hold)
  {
    var m := PlainMarket(bars, window, usesVwap, infer);
    RunIsHistory(cfg, m, WarmupBars(window));
    if Run(cfg, m, WarmupBars(window)).trades != [] {
      EntryTerms(cfg, m, WarmupBars(window), 0);
    }
  }
}
