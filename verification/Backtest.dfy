/** The bar-by-bar backtester (alphaTrade/backtest/engine.py) over exact reals. Inference
    is an arbitrary function of the window of rows it is shown, and may raise. */
module Backtest {
  import opened Wrappers
  import opened Trading

  // What inference comes to on a window.
  datatype Signal = Go(side: Side) | Hold | Raises

  // One bar of the price series; extra stands for the merged fundamentals columns.
  datatype Bar = Bar(open: real, high: real, low: real, close: real, volume: real, extra: seq<real>)

  datatype Config = Config(
    slippageBps: int,
    commission: real,
    initialEquity: real,
    sizePct: real,
    slPct: Option<real>,
    tpPct: Option<real>,
    stopGap: real,
    limitGap: real)

  // --------------------------------------------------------- pure pieces

  function Direction(side: Side): real {
    if side == Buy then 1.0 else -1.0
  }

  function SimulateFill(side: Side, open: real, slippageBps: int): real {
    var slip := slippageBps as real / 10000.0;
    if side == Buy then open * (1.0 + slip) else open * (1.0 - slip)
  }

  // An open simulated position.
  datatype Position = Position(
    side: Side,
    entryPrice: real,
    quantity: real,
    slPrice: Option<real>,
    tpPrice: Option<real>,
    entryBar: nat)

  function Pnl(pos: Position, exitPrice: real): real {
    Direction(pos.side) * (exitPrice - pos.entryPrice) * pos.quantity
  }

  datatype Reason = SL | TP | SIGNAL | END_OF_DATA

  datatype Hit = Hit(reason: Reason, price: real)

  predicate Touches(pos: Position, reason: Reason, high: real, low: real) {
    match reason
    case SL => pos.slPrice.Some? && (if pos.side == Buy then low <= pos.slPrice.value else high >= pos.slPrice.value)
    case TP => pos.tpPrice.Some? && (if pos.side == Buy then high >= pos.tpPrice.value else low <= pos.tpPrice.value)
    case _ => false
  }

  function CheckSlTp(pos: Position, high: real, low: real): Option<Hit> {
    if Touches(pos, SL, high, low) then Some(Hit(SL, pos.slPrice.value))
    else if Touches(pos, TP, high, low) then Some(Hit(TP, pos.tpPrice.value))
    else None
  }

  function ProtectedFraction(queuePosition: nat, stopGap: real, limitGap: real, barSeconds: real): real
    requires barSeconds > 0.0
  {
    var lag := queuePosition as real * (stopGap + limitGap);
    var f := 1.0 - lag / barSeconds;
    if f < 0.0 then 0.0 else f
  }

  // A price of the bar, pulled towards its open by the protected fraction.
  function Scaled(open: real, price: real, fraction: real): real {
    open + (price - open) * fraction
  }

  function CheckSlTpWithLag(pos: Position, open: real, high: real, low: real, fraction: real): Option<Hit> {
    if fraction >= 1.0 then CheckSlTp(pos, high, low)
    else if fraction <= 0.0 then None
    else CheckSlTp(pos, Scaled(open, high, fraction), Scaled(open, low, fraction))
  }

  // How a run looks for stop and target: on the whole bar, or with the bracket's queue
  // lag, by the protected fraction of each bar.
  datatype Checker = Plain | Lagged(fractions: seq<real>)

  function HitAt(c: Checker, pos: Position, bar: Bar, i: nat): Option<Hit>
    requires c.Lagged? ==> i < |c.fractions|
  {
    match c
    case Plain => CheckSlTp(pos, bar.high, bar.low)
    case Lagged(f) => CheckSlTpWithLag(pos, bar.open, bar.high, bar.low, f[i])
  }

  datatype Trade = Trade(pos: Position, exitPrice: real, exitBar: nat, pnl: real, reason: Reason)

  // The loop's variables.
  datatype Sim = Sim(equity: real, position: Option<Position>, trades: seq<Trade>)

  function Realized(cfg: Config, pos: Position, exitPrice: real): real {
    Pnl(pos, exitPrice) - cfg.commission
  }

  function CloseAt(cfg: Config, s: Sim, exitPrice: real, exitBar: nat, reason: Reason): Sim
    requires s.position.Some?
  {
    var realized := Realized(cfg, s.position.value, exitPrice);
    Sim(s.equity + realized, None, s.trades + [Trade(s.position.value, exitPrice, exitBar, realized, reason)])
  }

  function Quantity(equity: real, sizePct: real, fillPrice: real): real
    requires fillPrice != 0.0
  {
    equity * sizePct / fillPrice
  }

  function LevelPrice(fillPrice: real, direction: real, pct: real): real {
    fillPrice * (1.0 + direction * pct / 100.0)
  }

  function OpenPosition(cfg: Config, equity: real, side: Side, fillPrice: real, entryBar: nat): Position
    requires fillPrice != 0.0
  {
    Position(side, fillPrice, Quantity(equity, cfg.sizePct, fillPrice),
             if cfg.slPct.Some? then Some(LevelPrice(fillPrice, -Direction(side), cfg.slPct.value)) else None,
             if cfg.tpPct.Some? then Some(LevelPrice(fillPrice, Direction(side), cfg.tpPct.value)) else None,
             entryBar)
  }

  function AfterCheck(cfg: Config, c: Checker, bar: Bar, i: nat, s: Sim): Sim
    requires c.Lagged? ==> i < |c.fractions|
  {
    if s.position.None? then s
    else
      var hit := HitAt(c, s.position.value, bar, i);
      if hit.None? then s else CloseAt(cfg, s, hit.value.price, i, hit.value.reason)
  }

  predicate Opposes(signal: Signal, side: Side) {
    signal.Go? && signal.side != side
  }

  // None: the run raises, because inference did or by dividing by a fill price of zero.
  function AfterSignal(cfg: Config, next: Bar, signal: Signal, i: nat, s: Sim): Option<Sim> {
    if signal.Raises? then None
    else if signal.Go? && s.position.None? then
      var fillPrice := SimulateFill(signal.side, next.open, cfg.slippageBps);
      if fillPrice == 0.0 then None
      else Some(s.(position := Some(OpenPosition(cfg, s.equity, signal.side, fillPrice, i + 1))))
    else if s.position.Some? && Opposes(signal, s.position.value.side) then
      Some(CloseAt(cfg, s, SimulateFill(signal.side, next.open, cfg.slippageBps), i + 1, SIGNAL))
    else Some(s)
  }

  // A price series with what the run looks at: one signal for each bar, and the checker.
  datatype Market = Market(bars: seq<Bar>, signals: seq<Signal>, checker: Checker)
  {
    predicate Valid() {
      |signals| == |bars| && (checker.Lagged? ==> |checker.fractions| == |bars|)
    }
  }

  // One round of the walk: bar i, filling at the open of bar i + 1.
  function Step(cfg: Config, m: Market, i: nat, s: Sim): Option<Sim>
    requires m.Valid() && i + 1 < |m.bars|
  {
    AfterSignal(cfg, m.bars[i + 1], m.signals[i], i, AfterCheck(cfg, m.checker, m.bars[i], i, s))
  }

  function Begin(cfg: Config): Sim {
    Sim(cfg.initialEquity, None, [])
  }

  // The walk over bars start .. end - 1.
  function Walk(cfg: Config, m: Market, start: nat, end: nat): Option<Sim>
    requires m.Valid() && end < |m.bars|
    decreases end
  {
    if end <= start then Some(Begin(cfg))
    else
      var s := Walk(cfg, m, start, end - 1);
      if s.None? then None else Step(cfg, m, end - 1, s.value)
  }

  function Finish(cfg: Config, m: Market, s: Sim): Sim
    requires |m.bars| > 0
  {
    if s.position.None? then s
    else CloseAt(cfg, s, m.bars[|m.bars| - 1].close, |m.bars| - 1, END_OF_DATA)
  }

  datatype Outcome = NoData | Failed | Ran(trades: seq<Trade>, equity: real)

  // The whole run from bar start on.
  function Run(cfg: Config, m: Market, start: nat): Outcome
    requires m.Valid() && |m.bars| > 0
  {
    var s := Walk(cfg, m, start, |m.bars| - 1);
    if s.None? then Failed
    else
      var f := Finish(cfg, m, s.value);
      Ran(f.trades, f.equity)
  }

  // ------------------------------------------------- rows, windows and inference

  // The VWAP cell of a row: no such column, not a number, or a value.
  datatype Vwap = Absent | NaN | Value(value: real)

  datatype Row = Row(bar: Bar, vwap: Vwap)

  function TypicalTimesVolume(b: Bar): real {
    (b.high + b.low + b.close) / 3.0 * b.volume
  }

  // The running sums over the first k bars.
  function CumTpv(bars: seq<Bar>, k: nat): real
    requires k <= |bars|
  {
    if k == 0 then 0.0 else CumTpv(bars, k - 1) + TypicalTimesVolume(bars[k - 1])
  }

  function CumVolume(bars: seq<Bar>, k: nat): real
    requires k <= |bars|
  {
    if k == 0 then 0.0 else CumVolume(bars, k - 1) + bars[k - 1].volume
  }

  function VwapOf(tpv: real, volume: real): Vwap {
    if volume == 0.0 then NaN else Value(tpv / volume)
  }

  function RowAt(bars: seq<Bar>, withVwap: bool, i: nat): Row
    requires i < |bars|
  {
    Row(bars[i], if withVwap then VwapOf(CumTpv(bars, i + 1), CumVolume(bars, i + 1)) else Absent)
  }

  function Rows(bars: seq<Bar>, withVwap: bool): (rows: seq<Row>)
    ensures |rows| == |bars|
  {
    seq(|bars|, i requires 0 <= i < |bars| => RowAt(bars, withVwap, i))
  }

  // _precompute_passthrough_features: one pass with two running sums.
  method PrecomputeVwap(bars: seq<Bar>) returns (rows: seq<Row>)
    ensures rows == Rows(bars, true)
  {
    rows := [];
    var tpv, volume := 0.0, 0.0;
    for i := 0 to |bars|
      invariant tpv == CumTpv(bars, i) && volume == CumVolume(bars, i)
      invariant |rows| == i && forall j :: 0 <= j < i ==> rows[j] == RowAt(bars, true, j)
    {
      tpv := tpv + TypicalTimesVolume(bars[i]);
      volume := volume + bars[i].volume;
      rows := rows + [Row(bars[i], VwapOf(tpv, volume))];
    }
  }

  // The window shown to the model at bar i: the bar, and warmup bars before it.
  function WindowAt(rows: seq<Row>, warmup: nat, i: nat): seq<Row>
    requires i < |rows|
  {
    rows[if i < warmup then 0 else i - warmup..i + 1]
  }

  function SignalsOf(rows: seq<Row>, warmup: nat, infer: seq<Row> -> Signal): (signals: seq<Signal>)
    ensures |signals| == |rows|
  {
    seq(|rows|, i requires 0 <= i < |rows| => infer(WindowAt(rows, warmup, i)))
  }

  function WarmupBars(window: nat): nat {
    window + 50
  }

  function PlainMarket(bars: seq<Bar>, window: nat, usesVwap: bool, infer: seq<Row> -> Signal): (m: Market)
    ensures m.Valid() && m.bars == bars
  {
    Market(bars, SignalsOf(Rows(bars, usesVwap), WarmupBars(window), infer), Plain)
  }

  // The specification of _run_single_model.
  function PlainRun(cfg: Config, bars: seq<Bar>, window: nat, usesVwap: bool, infer: seq<Row> -> Signal): Outcome {
    if |bars| < window + 2 then NoData
    else Run(cfg, PlainMarket(bars, window, usesVwap, infer), WarmupBars(window))
  }

  // The round of the walk at bar i, from what its two halves come to.
  lemma WalkRound(cfg: Config, m: Market, start: nat, i: nat, s: Sim, checked: Sim, s1: Option<Sim>)
    requires m.Valid() && start <= i && i + 1 < |m.bars| && Walk(cfg, m, start, i) == Some(s)
    requires checked == AfterCheck(cfg, m.checker, m.bars[i], i, s)
    requires s1 == AfterSignal(cfg, m.bars[i + 1], m.signals[i], i, checked)
    ensures Walk(cfg, m, start, i + 1) == s1
    ensures s1.None? ==> Walk(cfg, m, start, |m.bars| - 1) == None
  {
    if s1.None? {
      FailedWalk(cfg, m, start, i + 1, |m.bars| - 1);
    }
  }

  lemma WalkRaises(cfg: Config, m: Market, start: nat, i: nat, s: Sim)
    requires m.Valid() && start <= i && i + 1 < |m.bars| && Walk(cfg, m, start, i) == Some(s)
    requires m.signals[i].Raises?
    ensures Walk(cfg, m, start, |m.bars| - 1) == None
  {
    WalkRound(cfg, m, start, i, s, AfterCheck(cfg, m.checker, m.bars[i], i, s), None);
  }

  // The first half of a round, the same in both runners: act on what the check of bar i found.
  method ActOnHit(cfg: Config, hit: Option<Hit>, i: nat, s: Sim) returns (s1: Sim)
    requires s.position.None? ==> hit.None?
    ensures s1 == if hit.None? then s else CloseAt(cfg, s, hit.value.price, i, hit.value.reason)
  {
    var equity, state, trades := s.equity, s.position, s.trades;
    if hit.Some? {
      var realized := Realized(cfg, state.value, hit.value.price);
      equity := equity + realized;
      trades := trades + [Trade(state.value, hit.value.price, i, realized, hit.value.reason)];
      state := None;
    }
    return Sim(equity, state, trades);
  }

  // The second half of a round, the same in both runners: act on the signal of bar i.
  method ActOnSignal(cfg: Config, next: Bar, signal: Signal, i: nat, s: Sim) returns (s1: Option<Sim>)
    ensures s1 == AfterSignal(cfg, next, signal, i, s)
  {
    var equity, state, trades := s.equity, s.position, s.trades;
    if signal.Raises? {
      return None;
    }
    if signal.Go? && state.None? {
      var fillPrice := SimulateFill(signal.side, next.open, cfg.slippageBps);
      if fillPrice == 0.0 {
        return None;
      }
      state := Some(OpenPosition(cfg, equity, signal.side, fillPrice, i + 1));
    } else if signal.Go? && state.Some? && signal.side != state.value.side {
      var fillPrice := SimulateFill(signal.side, next.open, cfg.slippageBps);
      var realized := Realized(cfg, state.value, fillPrice);
      equity := equity + realized;
      trades := trades + [Trade(state.value, fillPrice, i + 1, realized, SIGNAL)];
      state := None;
    }
    return Some(Sim(equity, state, trades));
  }

  // The end of a run, the same in both runners: an open position is closed at the last close.
  method CloseOut(cfg: Config, bars: seq<Bar>, ghost m: Market, ghost start: nat, s: Sim) returns (outcome: Outcome)
    requires m.Valid() && bars == m.bars && |bars| > 0 && Walk(cfg, m, start, |bars| - 1) == Some(s)
    ensures outcome == Run(cfg, m, start)
  {
    var equity, trades := s.equity, s.trades;
    if s.position.Some? {
      var exitPrice := bars[|bars| - 1].close;
      var realized := Realized(cfg, s.position.value, exitPrice);
      equity := equity + realized;
      trades := trades + [Trade(s.position.value, exitPrice, |bars| - 1, realized, END_OF_DATA)];
    }
    return Ran(trades, equity);
  }

  method RunSingleModel(cfg: Config, bars: seq<Bar>, window: nat, usesVwap: bool, infer: seq<Row> -> Signal)
    returns (outcome: Outcome)
    ensures outcome == PlainRun(cfg, bars, window, usesVwap, infer)
  {
    if |bars| < window + 2 {
      return NoData;
    }
    var warmup := WarmupBars(window);
    var rows := Rows(bars, false);
    if usesVwap {
      rows := PrecomputeVwap(bars);
    }
    ghost var m := PlainMarket(bars, window, usesVwap, infer);
    var s := Begin(cfg);
    var i := warmup;
    while i < |bars| - 1
      invariant warmup <= i && Walk(cfg, m, warmup, if i <= |bars| - 1 then i else |bars| - 1) == Some(s)
    {
      var hit: Option<Hit> := None;
      if s.position.Some? {
        hit := CheckSlTp(s.position.value, bars[i].high, bars[i].low);
      }
      var checked := ActOnHit(cfg, hit, i, s);
      var signal := infer(WindowAt(rows, warmup, i));
      var s1 := ActOnSignal(cfg, bars[i + 1], signal, i, checked);
      WalkRound(cfg, m, warmup, i, s, checked, s1);
      if s1.None? {
        return Failed;
      }
      s := s1.value;
      i := i + 1;
    }
    outcome := CloseOut(cfg, bars, m, warmup, s);
  }

  // Once a walk has raised it stays raised.
  lemma {:induction false} FailedWalk(cfg: Config, m: Market, start: nat, mid: nat, end: nat)
    requires m.Valid() && mid <= end < |m.bars| && Walk(cfg, m, start, mid) == None
    ensures Walk(cfg, m, start, end) == None
    decreases end
  {
    if mid == end {
    } else {
      FailedWalk(cfg, m, start, mid, end - 1);
    }
  }

  // ------------------------------------------------------------ the lagged runner

  // What a same-interval peer signals on each bar; Unavailable when it has no data.
  datatype Peer = Unavailable | Available(signals: seq<Signal>)

  predicate RaisesBefore(p: Peer, start: nat, i: nat) {
    p.Available? && exists j :: start <= j <= i && j < |p.signals| && p.signals[j].Raises?
  }

  // The peer has as much data as the model; otherwise it does not count on any bar.
  predicate LongEnough(p: Peer, n: nat) {
    p.Available? && |p.signals| >= n
  }

  // The peer counts, its inference got as far as bar i, and says BUY there.
  predicate BuysAt(p: Peer, start: nat, i: nat, n: nat) {
    LongEnough(p, n) && i < n && !RaisesBefore(p, start, i) && p.signals[i] == Go(Buy)
  }

  function PeersBuying(peers: seq<Peer>, start: nat, i: nat, n: nat): nat {
    if peers == [] then 0
    else PeersBuying(peers[..|peers| - 1], start, i, n) + (if BuysAt(peers[|peers| - 1], start, i, n) then 1 else 0)
  }

  function CountAt(counts: map<nat, nat>, i: nat): nat {
    if i in counts then counts[i] else 0
  }

  // The peers' BUYs of every bar, peer by peer; a peer whose inference raises keeps what
  // it has contributed so far.
  method CountPeerBuys(peers: seq<Peer>, start: nat, n: nat) returns (counts: map<nat, nat>)
    ensures forall i :: start <= i < n - 1 ==> CountAt(counts, i) == PeersBuying(peers, start, i, n)
  {
    counts := map[];
    for k := 0 to |peers|
      invariant forall i :: start <= i < n - 1 ==> CountAt(counts, i) == PeersBuying(peers[..k], start, i, n)
    {
      assert peers[..k + 1][..k] == peers[..k];
      var p := peers[k];
      if p.Available? && |p.signals| >= n {
        ghost var before := counts;
        var i := start;
        while i < n - 1 && !p.signals[i].Raises?
          invariant start <= i && (i <= n - 1 || i == start)
          invariant forall j :: start <= j < i && j < n - 1 ==> !p.signals[j].Raises?
          invariant forall j :: start <= j < n - 1 ==>
            CountAt(counts, j) == CountAt(before, j) + (if j < i && p.signals[j] == Go(Buy) then 1 else 0)
        {
          if p.signals[i] == Go(Buy) {
            counts := counts[i := CountAt(counts, i) + 1];
          }
          i := i + 1;
        }
      }
    }
    assert peers[..|peers|] == peers;
  }

  function Fractions(cfg: Config, peers: seq<Peer>, start: nat, n: nat, barSeconds: real): (f: seq<real>)
    requires barSeconds > 0.0
    ensures |f| == n
  {
    seq(n, i requires 0 <= i < n =>
      ProtectedFraction(PeersBuying(peers, start, i, n), cfg.stopGap, cfg.limitGap, barSeconds))
  }

  // The lagged runner shows the model rows without a precomputed VWAP column.
  function LagMarket(cfg: Config, bars: seq<Bar>, window: nat, infer: seq<Row> -> Signal, peers: seq<Peer>,
                     barSeconds: real): (m: Market)
    requires barSeconds > 0.0
    ensures m.Valid() && m.bars == bars
  {
    Market(bars, SignalsOf(Rows(bars, false), WarmupBars(window), infer),
           Lagged(Fractions(cfg, peers, WarmupBars(window), |bars|, barSeconds)))
  }

  // The specification of _run_single_model_with_lag.
  function LagRun(cfg: Config, bars: seq<Bar>, window: nat, infer: seq<Row> -> Signal, peers: seq<Peer>,
                  barSeconds: real): Outcome
    requires barSeconds > 0.0
  {
    if |bars| < window + 2 then NoData
    else Run(cfg, LagMarket(cfg, bars, window, infer, peers, barSeconds), WarmupBars(window))
  }

  method RunSingleModelWithLag(cfg: Config, bars: seq<Bar>, window: nat, infer: seq<Row> -> Signal, peers: seq<Peer>,
                               barSeconds: real)
    returns (outcome: Outcome)
    requires barSeconds > 0.0
    ensures outcome == LagRun(cfg, bars, window, infer, peers, barSeconds)
  {
    if |bars| < window + 2 {
      return NoData;
    }
    var warmup := WarmupBars(window);
    var rows := Rows(bars, false);
    var counts := CountPeerBuys(peers, warmup, |bars|);
    ghost var m := LagMarket(cfg, bars, window, infer, peers, barSeconds);
    var s := Begin(cfg);
    var i := warmup;
    while i < |bars| - 1
      invariant warmup <= i && Walk(cfg, m, warmup, if i <= |bars| - 1 then i else |bars| - 1) == Some(s)
    {
      var bar := bars[i];
      var signal := infer(WindowAt(rows, warmup, i));
      if signal.Raises? {
        WalkRaises(cfg, m, warmup, i, s);
        return Failed;
      }
      var hit: Option<Hit> := None;
      if s.position.Some? {
        var fraction := ProtectedFraction(CountAt(counts, i), cfg.stopGap, cfg.limitGap, barSeconds);
        assert fraction == m.checker.fractions[i];
        hit := CheckSlTpWithLag(s.position.value, bar.open, bar.high, bar.low, fraction);
      }
      var checked := ActOnHit(cfg, hit, i, s);
      var s1 := ActOnSignal(cfg, bars[i + 1], signal, i, checked);
      WalkRound(cfg, m, warmup, i, s, checked, s1);
      if s1.None? {
        return Failed;
      }
      s := s1.value;
      i := i + 1;
    }
    outcome := CloseOut(cfg, bars, m, warmup, s);
  }
}
