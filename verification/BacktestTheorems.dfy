/** Two-run and accounting properties of the backtester: no look-ahead, the VWAP column,
    completion, compounding equity and solvency. */
module BacktestTheorems {
  import opened Trading
  import opened RealMath
  import opened Backtest
  import opened BacktestHistory

  // ---------------------------------------------------------------- no look-ahead

  // The trades a run has completed by bar k, forced exits at the end of data aside.
  function Early(trades: seq<Trade>, k: nat): seq<Trade> {
    if trades == [] then []
    else
      var t := trades[|trades| - 1];
      Early(trades[..|trades| - 1], k) + (if t.exitBar <= k && t.reason != END_OF_DATA then [t] else [])
  }

  lemma EarlyPush(trades: seq<Trade>, t: Trade, k: nat)
    ensures Early(trades + [t], k) ==
            Early(trades, k) + (if t.exitBar <= k && t.reason != END_OF_DATA then [t] else [])
  {
    assert (trades + [t])[..|trades|] == trades;
  }

  // Two markets that look the same from bar start through bar k, and both go on. The
  // lag on bar start does not matter: no position is open yet.
  ghost predicate SameUpTo(a: Market, b: Market, start: nat, k: nat)
    requires a.Valid() && b.Valid()
  {
    && k + 1 < |a.bars| && k + 1 < |b.bars|
    && (forall i :: start <= i <= k ==> a.bars[i] == b.bars[i] && a.signals[i] == b.signals[i])
    && (a.checker.Plain? <==> b.checker.Plain?)
    && (a.checker.Lagged? && b.checker.Lagged? ==>
          forall i :: start < i <= k ==> a.checker.fractions[i] == b.checker.fractions[i])
  }

  lemma {:induction false} WalkSame(cfg: Config, a: Market, b: Market, k: nat, start: nat, end: nat)
    requires a.Valid() && b.Valid() && SameUpTo(a, b, start, k) && end <= k
    ensures Walk(cfg, a, start, end) == Walk(cfg, b, start, end)
    decreases end
  {
    if end <= start {
    } else {
      WalkSame(cfg, a, b, k, start, end - 1);
      assert a.bars[end - 1] == b.bars[end - 1] && a.bars[end] == b.bars[end];
    }
  }

  // What bar k itself still completes: the walk up to it, and its stop/target check.
  function CompletedBy(cfg: Config, m: Market, start: nat, k: nat): seq<Trade>
    requires m.Valid() && k < |m.bars|
  {
    var s := Walk(cfg, m, start, k);
    if k < start || s.None? then [] else AfterCheck(cfg, m.checker, m.bars[k], k, s.value).trades
  }

  lemma CheckEarly(cfg: Config, m: Market, i: nat, k: nat, s: Sim)
    requires m.Valid() && k < i < |m.bars|
    ensures Early(AfterCheck(cfg, m.checker, m.bars[i], i, s).trades, k) == Early(s.trades, k)
  {
    var s1 := AfterCheck(cfg, m.checker, m.bars[i], i, s);
    if s1 != s {
      EarlyPush(s.trades, s1.trades[|s.trades|], k);
    }
  }

  lemma SignalEarly(cfg: Config, next: Bar, signal: Signal, i: nat, k: nat, s: Sim)
    requires k <= i && AfterSignal(cfg, next, signal, i, s).Some?
    ensures Early(AfterSignal(cfg, next, signal, i, s).value.trades, k) == Early(s.trades, k)
  {
    var s1 := AfterSignal(cfg, next, signal, i, s).value;
    if s1.trades != s.trades {
      EarlyPush(s.trades, s1.trades[|s.trades|], k);
    }
  }

  // Nothing the walk does after bar k's check completes a trade by bar k.
  lemma {:induction false} WalkEarly(cfg: Config, m: Market, start: nat, k: nat, end: nat)
    requires m.Valid() && k < end < |m.bars| && Walk(cfg, m, start, end).Some?
    ensures Early(Walk(cfg, m, start, end).value.trades, k) == Early(CompletedBy(cfg, m, start, k), k)
    decreases end
  {
    if end <= start {
    } else {
      var s := Walk(cfg, m, start, end - 1).value;
      assert Walk(cfg, m, start, end) == Step(cfg, m, end - 1, s);
      StepEarly(cfg, m, end - 1, k, s);
      if k < end - 1 {
        WalkEarly(cfg, m, start, k, end - 1);
      } else {
        assert CompletedBy(cfg, m, start, k) == AfterCheck(cfg, m.checker, m.bars[k], k, s).trades;
      }
    }
  }

  lemma StepEarly(cfg: Config, m: Market, i: nat, k: nat, s: Sim)
    requires m.Valid() && k <= i && i + 1 < |m.bars| && Step(cfg, m, i, s).Some?
    ensures Early(Step(cfg, m, i, s).value.trades, k) ==
            if k < i then Early(s.trades, k) else Early(AfterCheck(cfg, m.checker, m.bars[i], i, s).trades, k)
  {
    SignalEarly(cfg, m.bars[i + 1], m.signals[i], i, k, AfterCheck(cfg, m.checker, m.bars[i], i, s));
    if k < i {
      CheckEarly(cfg, m, i, k, s);
    }
  }

  lemma RunEarly(cfg: Config, m: Market, start: nat, k: nat)
    requires m.Valid() && k + 1 < |m.bars| && Run(cfg, m, start).Ran?
    ensures Early(Run(cfg, m, start).trades, k) == Early(CompletedBy(cfg, m, start, k), k)
  {
    var s := Walk(cfg, m, start, |m.bars| - 1).value;
    WalkEarly(cfg, m, start, k, |m.bars| - 1);
    if s.position.Some? {
      EarlyPush(s.trades, Finish(cfg, m, s).trades[|s.trades|], k);
    }
  }

  // Markets that agree through bar k, and both go on, have completed the same trades by k.
  lemma MarketsSameEarly(cfg: Config, a: Market, b: Market, start: nat, k: nat)
    requires a.Valid() && b.Valid() && SameUpTo(a, b, start, k)
    requires Run(cfg, a, start).Ran? && Run(cfg, b, start).Ran?
    ensures Early(Run(cfg, a, start).trades, k) == Early(Run(cfg, b, start).trades, k)
  {
    RunEarly(cfg, a, start, k);
    RunEarly(cfg, b, start, k);
    WalkSame(cfg, a, b, k, start, k);
    assert start <= k ==> a.bars[k] == b.bars[k];
  }

  lemma {:induction false} CumSame(a: seq<Bar>, b: seq<Bar>, k: nat)
    requires k <= |a| && k <= |b| && a[..k] == b[..k]
    ensures CumTpv(a, k) == CumTpv(b, k) && CumVolume(a, k) == CumVolume(b, k)
  {
    if k == 0 {
    } else {
      assert a[..k - 1] == a[..k][..k - 1] && b[..k - 1] == b[..k][..k - 1];
      assert a[..k][k - 1] == b[..k][k - 1];
      CumSame(a, b, k - 1);
    }
  }

  // Bars that agree through bar k give the model the same windows through bar k, the
  // cumulative VWAP column included.
  lemma WindowSame(a: seq<Bar>, b: seq<Bar>, withVwap: bool, warmup: nat, k: nat, i: nat)
    requires k < |a| && k < |b| && a[..k + 1] == b[..k + 1] && i <= k
    ensures WindowAt(Rows(a, withVwap), warmup, i) == WindowAt(Rows(b, withVwap), warmup, i)
  {
    forall j | 0 <= j <= i
      ensures RowAt(a, withVwap, j) == RowAt(b, withVwap, j)
    {
      assert a[..j + 1] == a[..k + 1][..j + 1] && b[..j + 1] == b[..k + 1][..j + 1];
      assert a[..k + 1][j] == b[..k + 1][j];
      CumSame(a, b, j + 1);
    }
    var lo := if i < warmup then 0 else i - warmup;
    assert Rows(a, withVwap)[lo..i + 1] == Rows(b, withVwap)[lo..i + 1];
  }

  lemma SignalsSame(a: seq<Bar>, b: seq<Bar>, withVwap: bool, warmup: nat, k: nat, infer: seq<Row> -> Signal)
    requires k < |a| && k < |b| && a[..k + 1] == b[..k + 1]
    ensures forall i :: 0 <= i <= k ==>
              SignalsOf(Rows(a, withVwap), warmup, infer)[i] == SignalsOf(Rows(b, withVwap), warmup, infer)[i]
  {
    forall i | 0 <= i <= k
      ensures SignalsOf(Rows(a, withVwap), warmup, infer)[i] == SignalsOf(Rows(b, withVwap), warmup, infer)[i]
    {
      WindowSame(a, b, withVwap, warmup, k, i);
    }
  }

  // No look-ahead: if two price series agree on bars 0 .. k and both continue, then for
  // any inference function the two backtests have completed the same trades by bar k.
  lemma NoLookAhead(cfg: Config, a: seq<Bar>, b: seq<Bar>, window: nat, usesVwap: bool, infer: seq<Row> -> Signal,
                    k: nat)
    requires k + 1 < |a| && k + 1 < |b| && a[..k + 1] == b[..k + 1]
    requires PlainRun(cfg, a, window, usesVwap, infer).Ran? && PlainRun(cfg, b, window, usesVwap, infer).Ran?
    ensures Early(PlainRun(cfg, a, window, usesVwap, infer).trades, k)
         == Early(PlainRun(cfg, b, window, usesVwap, infer).trades, k)
  {
    var ma, mb := PlainMarket(a, window, usesVwap, infer), PlainMarket(b, window, usesVwap, infer);
    SignalsSame(a, b, usesVwap, WarmupBars(window), k, infer);
    forall i | 0 <= i <= k
      ensures ma.bars[i] == mb.bars[i]
    {
      assert a[..k + 1][i] == b[..k + 1][i];
    }
    MarketsSameEarly(cfg, ma, mb, WarmupBars(window), k);
  }

  // ------------------------------------------------------------------- the VWAP column

  ghost predicate Traded(b: Bar, lo: real, hi: real) {
    b.volume >= 0.0 && lo <= b.low && b.low <= b.close <= b.high && b.high <= hi
  }

  // x is what a total volume c amounts to at prices between lo and hi.
  ghost predicate Weighted(x: real, c: real, lo: real, hi: real) {
    c >= 0.0 && lo * c <= x <= hi * c
  }

  lemma CumNext(bars: seq<Bar>, k: nat, lo: real, hi: real)
    requires 0 < k <= |bars| && Traded(bars[k - 1], lo, hi)
    requires Weighted(CumTpv(bars, k - 1), CumVolume(bars, k - 1), lo, hi)
    ensures Weighted(CumTpv(bars, k), CumVolume(bars, k), lo, hi)
  {
    var b := bars[k - 1];
    TypicalWithin(b, lo, hi);
    AddWithin(CumTpv(bars, k - 1), CumVolume(bars, k - 1), TypicalTimesVolume(b), b.volume, lo, hi);
  }

  lemma {:induction false} CumWithin(bars: seq<Bar>, k: nat, lo: real, hi: real)
    requires k <= |bars|
    requires forall j :: 0 <= j < k ==> Traded(bars[j], lo, hi)
    ensures Weighted(CumTpv(bars, k), CumVolume(bars, k), lo, hi)
  {
    if k == 0 {
    } else {
      CumWithin(bars, k - 1, lo, hi);
      CumNext(bars, k, lo, hi);
    }
  }

  lemma TypicalWithin(b: Bar, lo: real, hi: real)
    requires Traded(b, lo, hi)
    ensures Weighted(TypicalTimesVolume(b), b.volume, lo, hi)
  {
    var typical := (b.high + b.low + b.close) / 3.0;
    assert lo <= typical <= hi;
    MulMono(lo, typical, b.volume);
    MulMono(typical, hi, b.volume);
  }

  lemma AddWithin(x: real, c: real, y: real, d: real, lo: real, hi: real)
    requires Weighted(x, c, lo, hi) && Weighted(y, d, lo, hi)
    ensures Weighted(x + y, c + d, lo, hi)
  {
    assert lo * (c + d) == lo * c + lo * d;
    assert hi * (c + d) == hi * c + hi * d;
  }

  // The cumulative VWAP of every row lies within any bounds on the prices so far, and is
  // missing exactly while nothing has traded.
  lemma VwapWithinRange(bars: seq<Bar>, i: nat, lo: real, hi: real)
    requires i < |bars|
    requires forall j :: 0 <= j <= i ==> Traded(bars[j], lo, hi)
    ensures var v := Rows(bars, true)[i].vwap;
            && (v.NaN? <==> CumVolume(bars, i + 1) == 0.0)
            && (v.Value? ==> lo <= v.value <= hi)
            && !v.Absent?
  {
    CumWithin(bars, i + 1, lo, hi);
    if CumVolume(bars, i + 1) != 0.0 {
      DivWithin(CumTpv(bars, i + 1), CumVolume(bars, i + 1), lo, hi);
    }
  }

  // ---------------------------------------------------------------- completion

  // With inference that does not raise, open prices that are not zero, and a slippage that
  // does not wipe out the price, a run completes.
  lemma {:induction false} WalkCompletes(cfg: Config, m: Market, start: nat, end: nat)
    requires m.Valid() && end < |m.bars| && !RaisesWithin(m, start, end)
    requires forall b <- m.bars :: b.open != 0.0
    requires cfg.slippageBps != 10000 && cfg.slippageBps != -10000
    ensures Walk(cfg, m, start, end).Some?
    decreases end
  {
    if end <= start {
    } else {
      WalkCompletes(cfg, m, start, end - 1);
      assert m.bars[end] in m.bars;
      FillNotZero(Buy, m.bars[end].open, cfg.slippageBps);
      FillNotZero(Sell, m.bars[end].open, cfg.slippageBps);
    }
  }

  lemma FillNotZero(side: Side, open: real, slippageBps: int)
    requires slippageBps != 10000 && slippageBps != -10000
    ensures SimulateFill(side, open, slippageBps) == 0.0 <==> open == 0.0
  {
    var slip := slippageBps as real / 10000.0;
    ZeroProduct(open, 1.0 + slip);
    ZeroProduct(open, 1.0 - slip);
  }

  // ---------------------------------------------------------------- accounting

  // Equity before the j-th trade of a list.
  function EquityAt(cfg: Config, trades: seq<Trade>, j: nat): real
    requires j <= |trades|
  {
    cfg.initialEquity + SumPnl(trades[..j])
  }

  // The growth factor of one trade.
  function Growth(cfg: Config, t: Trade): real
    requires t.pos.entryPrice != 0.0
  {
    1.0 + cfg.sizePct * Direction(t.pos.side) * (t.exitPrice / t.pos.entryPrice - 1.0)
  }

  lemma SizedPnl(equity: real, size: real, entry: real, exit: real, dir: real)
    requires entry != 0.0
    ensures equity + dir * (exit - entry) * (equity * size / entry)
            == equity * (1.0 + size * dir * (exit / entry - 1.0))
  {
    var r := exit / entry;
    var q := equity * size / entry;
    assert r * entry == exit && q * entry == equity * size;
    assert (exit - entry) * q == (r - 1.0) * (q * entry) by {
      assert exit - entry == (r - 1.0) * entry;
    }
    assert dir * (exit - entry) * q == dir * ((exit - entry) * q);
    assert dir * ((r - 1.0) * (equity * size)) == equity * (size * dir * (r - 1.0));
  }

  lemma TradeCompounds(cfg: Config, m: Market, from: nat, equity: real, t: Trade)
    requires m.Valid() && Entered(cfg, m, t.pos, from, equity) && t.pnl == Realized(cfg, t.pos, t.exitPrice)
    ensures t.pos.entryPrice != 0.0
    ensures equity + t.pnl == equity * Growth(cfg, t) - cfg.commission
  {
    SizedPnl(equity, cfg.sizePct, t.pos.entryPrice, t.exitPrice, Direction(t.pos.side));
  }

  ghost predicate Compounds(cfg: Config, trades: seq<Trade>, j: nat)
    requires j < |trades|
  {
    && trades[j].pos.entryPrice != 0.0
    && EquityAt(cfg, trades, j + 1) == EquityAt(cfg, trades, j) * Growth(cfg, trades[j]) - cfg.commission
  }

  lemma SumPnlNext(trades: seq<Trade>, j: nat)
    requires j < |trades|
    ensures SumPnl(trades[..j + 1]) == SumPnl(trades[..j]) + trades[j].pnl
  {
    assert trades[..j + 1][..j] == trades[..j] && trades[..j + 1][j] == trades[j];
  }

  lemma ExplainedCompounds(cfg: Config, m: Market, start: nat, trades: seq<Trade>, j: nat)
    requires m.Valid() && j < |trades| && ExplainedAt(cfg, m, start, trades, j)
    ensures Compounds(cfg, trades, j)
  {
    SumPnlNext(trades, j);
    TradeCompounds(cfg, m, FlatFrom(trades[..j], start), EquityAt(cfg, trades, j), trades[j]);
  }

  // Compounding: every trade multiplies the equity it was sized on by its growth factor,
  // less the commission; so the final equity is the initial one plus all realised P&L.
  lemma EquityCompounds(cfg: Config, m: Market, start: nat, j: nat)
    requires m.Valid() && |m.bars| > 0 && Run(cfg, m, start).Ran? && j < |Run(cfg, m, start).trades|
    ensures Compounds(cfg, Run(cfg, m, start).trades, j)
    ensures var r := Run(cfg, m, start); r.equity == EquityAt(cfg, r.trades, |r.trades|)
  {
    RunIsHistory(cfg, m, start);
    var trades := Run(cfg, m, start).trades;
    ExplainedCompounds(cfg, m, start, trades, j);
    assert trades[..|trades|] == trades;
  }

  ghost predicate PositivePrices(m: Market) {
    forall b <- m.bars :: b.open > 0.0 && b.low > 0.0 && b.close > 0.0
  }

  // A long trade on positive prices is closed at a positive price.
  lemma LongExitPositive(cfg: Config, m: Market, start: nat, j: nat)
    requires m.Valid() && |m.bars| > 0 && Run(cfg, m, start).Ran?
    requires j < |Run(cfg, m, start).trades| && Run(cfg, m, start).trades[j].pos.side == Buy
    requires PositivePrices(m) && -10000 < cfg.slippageBps < 10000
    requires cfg.tpPct.Some? ==> cfg.tpPct.value > -100.0
    ensures var t := Run(cfg, m, start).trades[j]; t.pos.entryPrice > 0.0 && t.exitPrice > 0.0
  {
    RunIsHistory(cfg, m, start);
    var trades := Run(cfg, m, start).trades;
    var t := trades[j];
    assert ExplainedAt(cfg, m, start, trades, j);
    assert m.bars[t.pos.entryBar] in m.bars && m.bars[t.exitBar] in m.bars;
    FillPositive(Buy, m.bars[t.pos.entryBar].open, cfg.slippageBps);
    FillPositive(Sell, m.bars[t.exitBar].open, cfg.slippageBps);
    if t.reason == TP {
      LevelPositive(t.pos.entryPrice, cfg.tpPct.value);
    } else if t.reason == SL {
      HitIff(m, t.pos, t.exitBar);
      StopTouchPositive(m, t.pos, t.exitBar);
    }
  }

  // The stop of a long position is only touched at a positive price: the runner looks no
  // lower than the low, and a low pulled towards the open lies between the two.
  lemma StopTouchPositive(m: Market, pos: Position, i: nat)
    requires m.Valid() && i < |m.bars| && m.bars[i].open > 0.0 && m.bars[i].low > 0.0
    requires pos.side == Buy && StopReached(pos, LookAt(m, i))
    ensures pos.slPrice.value > 0.0
  {
    if m.checker.Lagged? && 0.0 < m.checker.fractions[i] < 1.0 {
      ScaledPositive(m.bars[i].open, m.bars[i].low, m.checker.fractions[i]);
    }
  }

  lemma ScaledPositive(open: real, price: real, f: real)
    requires open > 0.0 && price > 0.0 && 0.0 < f <= 1.0
    ensures Scaled(open, price, f) > 0.0
  {
    ProductSign(price, f);
    assert open * (1.0 - f) >= 0.0;
    assert Scaled(open, price, f) == open * (1.0 - f) + price * f;
  }

  lemma FillPositive(side: Side, open: real, slippageBps: int)
    requires open > 0.0 && -10000 < slippageBps < 10000
    ensures SimulateFill(side, open, slippageBps) > 0.0
  {
    var slip := slippageBps as real / 10000.0;
    assert -1.0 < slip < 1.0;
    ProductSign(open, 1.0 + slip);
    ProductSign(open, 1.0 - slip);
  }

  lemma LevelPositive(price: real, pct: real)
    requires price > 0.0 && pct > -100.0
    ensures LevelPrice(price, 1.0, pct) > 0.0
  {
    assert 1.0 + 1.0 * pct / 100.0 > 0.0;
  }

  lemma GrowthPositive(equity: real, size: real, ratio: real)
    requires equity > 0.0 && 0.0 <= size <= 1.0 && ratio > 0.0
    ensures equity * (1.0 + size * 1.0 * (ratio - 1.0)) > 0.0
  {
    ProductSign(size, ratio);
    var factor := 1.0 + size * 1.0 * (ratio - 1.0);
    assert factor == (1.0 - size) + size * ratio;
    ProductSign(equity, factor);
  }

  // A run whose trades are all long, sized at most on the whole equity and without
  // commission, on positive prices, never loses everything: equity stays positive
  // before, between and after its trades.
  lemma {:induction false} LongOnlyStaysSolvent(cfg: Config, m: Market, start: nat, j: nat)
    requires m.Valid() && |m.bars| > 0 && Run(cfg, m, start).Ran?
    requires forall t <- Run(cfg, m, start).trades :: t.pos.side == Buy
    requires cfg.initialEquity > 0.0 && 0.0 <= cfg.sizePct <= 1.0 && cfg.commission == 0.0
    requires PositivePrices(m) && -10000 < cfg.slippageBps < 10000
    requires cfg.tpPct.Some? ==> cfg.tpPct.value > -100.0
    requires j <= |Run(cfg, m, start).trades|
    ensures EquityAt(cfg, Run(cfg, m, start).trades, j) > 0.0
  {
    var trades := Run(cfg, m, start).trades;
    if j == 0 {
    } else {
      LongOnlyStaysSolvent(cfg, m, start, j - 1);
      EquityCompounds(cfg, m, start, j - 1);
      var t := trades[j - 1];
      assert t in trades;
      LongExitPositive(cfg, m, start, j - 1);
      assert t.exitPrice / t.pos.entryPrice > 0.0;
      GrowthPositive(EquityAt(cfg, trades, j - 1), cfg.sizePct, t.exitPrice / t.pos.entryPrice);
    }
  }

  // Slippage is always against the trader: a BUY fills no lower and a SELL no higher than
  // the open, and strictly so when there is any.
  lemma SlippageIsAdverse(open: real, slippageBps: int)
    requires open > 0.0 && slippageBps >= 0
    ensures SimulateFill(Sell, open, slippageBps) <= open <= SimulateFill(Buy, open, slippageBps)
    ensures slippageBps > 0 <==> SimulateFill(Sell, open, slippageBps) < SimulateFill(Buy, open, slippageBps)
  {
    var slip := slippageBps as real / 10000.0;
    assert SimulateFill(Buy, open, slippageBps) == open + open * slip;
    assert SimulateFill(Sell, open, slippageBps) == open - open * slip;
    assert slippageBps > 0 ==> open * slip > 0.0;
  }

  // The levels stand on the losing and on the winning side of the entry, for either side.
  lemma LevelsBracketEntry(cfg: Config, equity: real, side: Side, price: real, entryBar: nat)
    requires price > 0.0
    requires cfg.slPct.Some? && cfg.slPct.value > 0.0 && cfg.tpPct.Some? && cfg.tpPct.value > 0.0
    ensures var pos := OpenPosition(cfg, equity, side, price, entryBar);
            && Direction(side) * (pos.slPrice.value - price) < 0.0
            && Direction(side) * (pos.tpPrice.value - price) > 0.0
  {
    LevelSide(price, cfg.slPct.value);
    LevelSide(price, cfg.tpPct.value);
  }

  lemma LevelSide(price: real, pct: real)
    requires price > 0.0 && pct > 0.0
    ensures LevelPrice(price, 1.0, pct) > price && LevelPrice(price, -1.0, pct) < price
  {
    ProductSign(price, pct / 100.0);
    assert LevelPrice(price, 1.0, pct) == price + price * (pct / 100.0);
    assert LevelPrice(price, -1.0, pct) == price - price * (pct / 100.0);
  }

  // Which trades can cost more than the equity they were sized on: a long one never
  // does on a positive exit, a short one does once the price has risen by the inverse of
  // the size.
  lemma SolventIff(cfg: Config, t: Trade)
    requires t.pos.entryPrice > 0.0 && t.exitPrice > 0.0 && 0.0 <= cfg.sizePct <= 1.0
    ensures t.pos.side == Buy ==> Growth(cfg, t) > 0.0
    ensures t.pos.side == Sell ==>
              (Growth(cfg, t) > 0.0 <==> cfg.sizePct * (t.exitPrice / t.pos.entryPrice - 1.0) < 1.0)
  {
    var ratio := t.exitPrice / t.pos.entryPrice;
    assert ratio > 0.0;
    GrowthPositive(1.0, cfg.sizePct, ratio);
    assert cfg.sizePct * -1.0 * (ratio - 1.0) == -(cfg.sizePct * (ratio - 1.0));
  }
}
