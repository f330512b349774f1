/** The backtest summary (alphaTrade/backtest/reporter.py), before rounding. */
module Reporter {
  import opened Wrappers
  import opened RealMath

  datatype TradeResult = TradeResult(modelId: string, pnl: real)

  datatype ModelStats = ModelStats(trades: nat, pnl: real, wins: nat)
  {
    function With(t: TradeResult): ModelStats {
      ModelStats(trades + 1, pnl + t.pnl, wins + (if t.pnl > 0.0 then 1 else 0))
    }
  }

  datatype Summary = Summary(
    totalTrades: nat,
    totalPnl: real,
    winRate: real,
    maxDrawdownPct: real,
    byModel: map<string, ModelStats>)

  // Equity after the first k trades.
  function EquityAfter(trades: seq<TradeResult>, initial: real, k: nat): real
    requires k <= |trades|
  {
    if k == 0 then initial else EquityAfter(trades, initial, k - 1) + trades[k - 1].pnl
  }

  function Max(a: real, b: real): real {
    if b > a then b else a
  }

  // The highest equity up to trade k.
  function Peak(trades: seq<TradeResult>, initial: real, k: nat): real
    requires k <= |trades|
  {
    if k == 0 then initial else Max(Peak(trades, initial, k - 1), EquityAfter(trades, initial, k))
  }

  // Fall from a to b in percent of a.
  function FallPct(a: real, b: real): real
    requires a != 0.0
  {
    (a - b) / a * 100.0
  }

  // The summary divides by the peak after every trade; a zero peak raises.
  ghost predicate NoZeroPeak(trades: seq<TradeResult>, initial: real, k: nat)
    requires k <= |trades|
  {
    forall j :: 1 <= j <= k ==> Peak(trades, initial, j) != 0.0
  }

  ghost function OnePassDrawdown(trades: seq<TradeResult>, initial: real, k: nat): real
    requires k <= |trades| && NoZeroPeak(trades, initial, k)
  {
    if k == 0 then 0.0
    else
      Max(OnePassDrawdown(trades, initial, k - 1),
          FallPct(Peak(trades, initial, k), EquityAfter(trades, initial, k)))
  }

  function TotalPnl(trades: seq<TradeResult>): real {
    if trades == [] then 0.0 else TotalPnl(trades[..|trades| - 1]) + trades[|trades| - 1].pnl
  }

  function Wins(trades: seq<TradeResult>): nat {
    if trades == [] then 0 else Wins(trades[..|trades| - 1]) + (if trades[|trades| - 1].pnl > 0.0 then 1 else 0)
  }

  // The statistics of one model: of the trades that carry its id.
  function StatsOf(trades: seq<TradeResult>, id: string): ModelStats {
    if trades == [] then ModelStats(0, 0.0, 0)
    else
      var before := StatsOf(trades[..|trades| - 1], id);
      var t := trades[|trades| - 1];
      if t.modelId != id then before else before.With(t)
  }

  function Models(trades: seq<TradeResult>): set<string> {
    set t | t in trades :: t.modelId
  }

  lemma ModelsPush(trades: seq<TradeResult>, t: TradeResult)
    ensures Models(trades + [t]) == Models(trades) + {t.modelId}
  {
    assert t in trades + [t];
    forall id | id in Models(trades)
      ensures id in Models(trades + [t])
    {
      var u :| u in trades && u.modelId == id;
      assert u in trades + [t];
    }
  }

  lemma StatsPush(trades: seq<TradeResult>, t: TradeResult, id: string)
    ensures var before := StatsOf(trades, id);
            StatsOf(trades + [t], id) ==
              if t.modelId != id then before else before.With(t)
  {
    assert (trades + [t])[..|trades|] == trades;
  }

  // One entry for each model that occurs, with the statistics of its trades.
  ghost predicate Breakdown(byModel: map<string, ModelStats>, trades: seq<TradeResult>) {
    byModel.Keys == Models(trades) && forall id <- byModel :: byModel[id] == StatsOf(trades, id)
  }

  lemma BreakdownPush(byModel: map<string, ModelStats>, trades: seq<TradeResult>, t: TradeResult, stats: ModelStats)
    requires Breakdown(byModel, trades) && stats == StatsOf(trades + [t], t.modelId)
    ensures Breakdown(byModel[t.modelId := stats], trades + [t])
  {
    ModelsPush(trades, t);
    forall id | id in byModel
      ensures id != t.modelId ==> byModel[id] == StatsOf(trades + [t], id)
    {
      StatsPush(trades, t, id);
    }
  }

  // The statistics the loop has for a model before a trade of it, and after.
  function StatsSoFar(byModel: map<string, ModelStats>, id: string): ModelStats {
    if id in byModel then byModel[id] else ModelStats(0, 0.0, 0)
  }

  lemma BreakdownStep(byModel: map<string, ModelStats>, trades: seq<TradeResult>, t: TradeResult)
    requires Breakdown(byModel, trades)
    ensures Breakdown(byModel[t.modelId := StatsSoFar(byModel, t.modelId).With(t)], trades + [t])
  {
    if t.modelId !in byModel {
      AbsentModel(trades, t.modelId);
    }
    StatsPush(trades, t, t.modelId);
    BreakdownPush(byModel, trades, t, StatsSoFar(byModel, t.modelId).With(t));
  }

  // The breakdown loop.
  method ByModel(trades: seq<TradeResult>) returns (byModel: map<string, ModelStats>)
    ensures Breakdown(byModel, trades)
  {
    byModel := map[];
    for k := 0 to |trades|
      invariant Breakdown(byModel, trades[..k])
    {
      var t := trades[k];
      BreakdownStep(byModel, trades[..k], t);
      assert trades[..k] + [t] == trades[..k + 1];
      var stats := ModelStats(0, 0.0, 0);
      if t.modelId in byModel {
        stats := byModel[t.modelId];
      }
      byModel := byModel[t.modelId := stats.With(t)];
    }
    assert trades[..|trades|] == trades;
  }

  lemma {:induction false} AbsentModel(trades: seq<TradeResult>, id: string)
    requires id !in Models(trades)
    ensures StatsOf(trades, id) == ModelStats(0, 0.0, 0)
  {
    if trades == [] {
    } else {
      var n := |trades| - 1;
      assert trades == trades[..n] + [trades[n]];
      ModelsPush(trades[..n], trades[n]);
      AbsentModel(trades[..n], id);
    }
  }

  // The drawdown loop: running equity and peak. None: a division by a zero peak.
  method MaxDrawdown(trades: seq<TradeResult>, initial: real) returns (maxDd: Option<real>)
    ensures maxDd.None? <==> !NoZeroPeak(trades, initial, |trades|)
    ensures maxDd.Some? ==> maxDd.value == OnePassDrawdown(trades, initial, |trades|)
  {
    var equity, peak, worst := initial, initial, 0.0;
    for k := 0 to |trades|
      invariant equity == EquityAfter(trades, initial, k) && peak == Peak(trades, initial, k)
      invariant NoZeroPeak(trades, initial, k) && worst == OnePassDrawdown(trades, initial, k)
    {
      equity := equity + trades[k].pnl;
      if equity > peak {
        peak := equity;
      }
      assert peak == Peak(trades, initial, k + 1);
      if peak == 0.0 {
        return None;
      }
      var dd := FallPct(peak, equity);
      if dd > worst {
        worst := dd;
      }
    }
    return Some(worst);
  }

  method ComputeSummary(trades: seq<TradeResult>, initial: real) returns (summary: Option<Summary>)
    ensures trades == [] ==> summary == Some(Summary(0, 0.0, 0.0, 0.0, map[]))
    ensures trades != [] ==> (summary.None? <==> !NoZeroPeak(trades, initial, |trades|))
    ensures trades != [] && summary.Some? ==>
              && summary.value.totalTrades == |trades|
              && summary.value.totalPnl == TotalPnl(trades)
              && summary.value.winRate == Wins(trades) as real / |trades| as real
              && summary.value.maxDrawdownPct == OnePassDrawdown(trades, initial, |trades|)
              && summary.value.byModel == map id | id in Models(trades) :: StatsOf(trades, id)
  {
    if |trades| == 0 {
      return Some(Summary(0, 0.0, 0.0, 0.0, map[]));
    }
    var total, wins := 0.0, 0;
    for k := 0 to |trades|
      invariant total == TotalPnl(trades[..k]) && wins == Wins(trades[..k])
    {
      assert trades[..k + 1][..k] == trades[..k];
      total := total + trades[k].pnl;
      wins := wins + (if trades[k].pnl > 0.0 then 1 else 0);
    }
    assert trades[..|trades|] == trades;
    var maxDd := MaxDrawdown(trades, initial);
    if maxDd.None? {
      return None;
    }
    var byModel := ByModel(trades);
    return Some(Summary(|trades|, total, wins as real / |trades| as real, maxDd.value, byModel));
  }

  // ---------------------------------------------------- what the totals amount to

  lemma {:induction false} WinsIs(trades: seq<TradeResult>)
    ensures Wins(trades) == |set k | 0 <= k < |trades| && trades[k].pnl > 0.0|
  {
    var won := set k | 0 <= k < |trades| && trades[k].pnl > 0.0;
    if trades == [] {
      assert won == {};
    } else {
      var n := |trades| - 1;
      WinsIs(trades[..n]);
      assert won == (set k | 0 <= k < n && trades[..n][k].pnl > 0.0) + (if trades[n].pnl > 0.0 then {n} else {});
    }
  }

  lemma {:induction false} TotalPnlIs(a: seq<TradeResult>, b: seq<TradeResult>, t: TradeResult)
    ensures TotalPnl([]) == 0.0 && TotalPnl([t]) == t.pnl && TotalPnl(a + b) == TotalPnl(a) + TotalPnl(b)
  {
    assert [t][..0] == [];
    if b == [] {
      assert a + b == a;
    } else {
      var n := |b| - 1;
      TotalPnlIs(a, b[..n], t);
      assert (a + b)[..|a + b| - 1] == a + b[..n];
    }
  }

  // Equity at any time is the initial one and the P&L so far.
  lemma {:induction false} EquityIs(trades: seq<TradeResult>, initial: real, k: nat)
    requires k <= |trades|
    ensures EquityAfter(trades, initial, k) == initial + TotalPnl(trades[..k])
  {
    if k == 0 {
    } else {
      EquityIs(trades, initial, k - 1);
      assert trades[..k][..k - 1] == trades[..k - 1];
    }
  }

  // The trades of one model, in order.
  ghost function Of(trades: seq<TradeResult>, id: string): seq<TradeResult> {
    if trades == [] then []
    else
      var rest, t := Of(trades[..|trades| - 1], id), trades[|trades| - 1];
      if t.modelId == id then rest + [t] else rest
  }

  // A model's entry in the breakdown is the summary of its trades alone.
  lemma {:induction false} StatsAreOfModel(trades: seq<TradeResult>, id: string)
    ensures var own := Of(trades, id); StatsOf(trades, id) == ModelStats(|own|, TotalPnl(own), Wins(own))
  {
    if trades == [] {
    } else {
      var n := |trades| - 1;
      StatsAreOfModel(trades[..n], id);
      var rest := Of(trades[..n], id);
      assert (rest + [trades[n]])[..|rest|] == rest;
    }
  }

  // A fall is counted in hundredths of where it starts.
  lemma FallPctIs(a: real, b: real)
    requires a != 0.0
    ensures FallPct(a, b) * a == 100.0 * (a - b)
  {
    assert (a - b) / a * a == a - b;
  }

  // ------------------------------------------------ what the drawdown number means

  lemma {:induction false} PeakIsHighest(trades: seq<TradeResult>, initial: real, k: nat)
    requires k <= |trades|
    ensures forall i :: 0 <= i <= k ==> EquityAfter(trades, initial, i) <= Peak(trades, initial, k)
    ensures exists i :: 0 <= i <= k && EquityAfter(trades, initial, i) == Peak(trades, initial, k)
  {
    if k > 0 {
      PeakIsHighest(trades, initial, k - 1);
      if Peak(trades, initial, k) == EquityAfter(trades, initial, k) {
      } else {
        var i :| 0 <= i <= k - 1 && EquityAfter(trades, initial, i) == Peak(trades, initial, k - 1);
      }
    } else {
      assert EquityAfter(trades, initial, 0) == Peak(trades, initial, 0);
    }
  }

  // From which start is the fall to b the larger? From the higher one while b is not
  // below zero, from the lower one when it is.
  lemma HigherStartFallsFurtherIff(a: real, peak: real, b: real)
    requires 0.0 < a <= peak
    ensures FallPct(a, b) <= FallPct(peak, b) <==> b >= 0.0 || a == peak
    ensures b < 0.0 ==> FallPct(peak, b) <= FallPct(a, b)
  {
    Reciprocal(a, b);
    Reciprocal(peak, b);
    if b >= 0.0 {
      QuotientAntitone(a, peak, b);
    } else {
      QuotientAntitone(a, peak, -b);
      Negated(a, b);
      Negated(peak, b);
      if a < peak {
        QuotientStrict(a, peak, -b);
      }
    }
  }

  lemma Negated(a: real, b: real)
    requires a > 0.0
    ensures -b / a == -(b / a)
  {
    var x, y := -b / a, b / a;
    assert x * a == -b && y * a == b;
    ZeroProduct(x + y, a);
  }

  lemma QuotientStrict(a: real, p: real, b: real)
    requires 0.0 < a < p && b > 0.0
    ensures b / p < b / a
  {
    var x, y := b / a, b / p;
    assert x * a == b && y * p == b;
    MulMono(a, p, x);
    if y >= x {
      MulMono(x, y, p);
      assert false;
    }
  }

  lemma Reciprocal(a: real, b: real)
    requires a > 0.0
    ensures FallPct(a, b) == (1.0 - b / a) * 100.0
  {
    var x, y := (a - b) / a, b / a;
    assert x * a == a - b && y * a == b;
    ZeroProduct(x + y - 1.0, a);
  }

  lemma QuotientAntitone(a: real, p: real, b: real)
    requires 0.0 < a <= p && b >= 0.0
    ensures b / p <= b / a
  {
    var x, y := b / a, b / p;
    assert x * a == b && y * p == b;
    assert x >= 0.0;
    if y > x {
      assert y * p >= y * a;
      assert y * a > x * a;
    }
  }

  lemma PositivePeak(trades: seq<TradeResult>, initial: real, k: nat)
    requires k <= |trades| && initial > 0.0
    ensures Peak(trades, initial, k) > 0.0 && NoZeroPeak(trades, initial, k)
  {
    forall j | 0 <= j <= k
      ensures Peak(trades, initial, j) > 0.0
    {
      PeakIsHighest(trades, initial, j);
      assert EquityAfter(trades, initial, 0) == initial;
    }
  }

  // The lowest positive equity up to trade k.
  function Trough(trades: seq<TradeResult>, initial: real, k: nat): real
    requires k <= |trades|
  {
    if k == 0 then initial
    else
      var t, e := Trough(trades, initial, k - 1), EquityAfter(trades, initial, k);
      if 0.0 < e < t then e else t
  }

  lemma {:induction false} TroughIsLowest(trades: seq<TradeResult>, initial: real, k: nat) returns (at: nat)
    requires k <= |trades| && initial > 0.0
    ensures at <= k && EquityAfter(trades, initial, at) == Trough(trades, initial, k) > 0.0
    ensures forall i :: 0 <= i <= k && EquityAfter(trades, initial, i) > 0.0 ==>
              Trough(trades, initial, k) <= EquityAfter(trades, initial, i)
  {
    if k == 0 {
      at := 0;
    } else {
      at := TroughIsLowest(trades, initial, k - 1);
      if Trough(trades, initial, k) != Trough(trades, initial, k - 1) {
        at := k;
      }
    }
  }

  // No fall that ends after trade j, from positive equity, exceeds x.
  ghost predicate BoundsFallsTo(trades: seq<TradeResult>, initial: real, j: nat, x: real)
    requires j <= |trades|
  {
    forall i :: 0 <= i <= j && EquityAfter(trades, initial, i) > 0.0 ==>
      FallPct(EquityAfter(trades, initial, i), EquityAfter(trades, initial, j)) <= x
  }

  // The greatest fall that ends after trade j starts at the peak or, when equity is
  // below zero by then, at the trough.
  lemma GreatestFallTo(trades: seq<TradeResult>, initial: real, j: nat, x: real)
    requires initial > 0.0 && j <= |trades|
    ensures Peak(trades, initial, j) > 0.0 && Trough(trades, initial, j) > 0.0
    ensures var e := EquityAfter(trades, initial, j);
            var start := if e < 0.0 then Trough(trades, initial, j) else Peak(trades, initial, j);
            BoundsFallsTo(trades, initial, j, x) <==> FallPct(start, e) <= x
  {
    PositivePeak(trades, initial, j);
    PeakIsHighest(trades, initial, j);
    var at := TroughIsLowest(trades, initial, j);
    var e := EquityAfter(trades, initial, j);
    forall i | 0 <= i <= j && EquityAfter(trades, initial, i) > 0.0
      ensures e >= 0.0 ==> FallPct(EquityAfter(trades, initial, i), e) <= FallPct(Peak(trades, initial, j), e)
      ensures e < 0.0 ==> FallPct(EquityAfter(trades, initial, i), e) <= FallPct(Trough(trades, initial, j), e)
    {
      HigherStartFallsFurtherIff(EquityAfter(trades, initial, i), Peak(trades, initial, j), e);
      HigherStartFallsFurtherIff(Trough(trades, initial, j), EquityAfter(trades, initial, i), e);
    }
    var top :| 0 <= top <= j && EquityAfter(trades, initial, top) == Peak(trades, initial, j);
  }

  // At one end point: the fall from the running peak is the greatest if and only if
  // equity is not below zero there, or was never at another positive level before.
  lemma PeakFallIsGreatestIff(trades: seq<TradeResult>, initial: real, j: nat)
    requires initial > 0.0 && j <= |trades|
    ensures Peak(trades, initial, j) > 0.0
    ensures BoundsFallsTo(trades, initial, j, FallPct(Peak(trades, initial, j), EquityAfter(trades, initial, j)))
            <==> EquityAfter(trades, initial, j) >= 0.0 || Trough(trades, initial, j) == Peak(trades, initial, j)
  {
    PositivePeak(trades, initial, j);
    var e := EquityAfter(trades, initial, j);
    GreatestFallTo(trades, initial, j, FallPct(Peak(trades, initial, j), e));
    PeakIsHighest(trades, initial, j);
    var at := TroughIsLowest(trades, initial, j);
    HigherStartFallsFurtherIff(Trough(trades, initial, j), Peak(trades, initial, j), e);
  }

  // The one-pass number is at least the fall from the peak at every end point ...
  lemma {:induction false} OnePassBoundsPeakFalls(trades: seq<TradeResult>, initial: real, k: nat, j: nat)
    requires initial > 0.0 && j <= k <= |trades|
    ensures NoZeroPeak(trades, initial, k) && Peak(trades, initial, j) > 0.0
    ensures FallPct(Peak(trades, initial, j), EquityAfter(trades, initial, j)) <= OnePassDrawdown(trades, initial, k)
    decreases k
  {
    PositivePeak(trades, initial, k);
    PositivePeak(trades, initial, j);
    if j == k {
    } else {
      OnePassBoundsPeakFalls(trades, initial, k - 1, j);
    }
  }

  // ... and is itself the fall from the peak at one, and from an earlier point in time.
  lemma {:induction false} DrawdownIsSomeFall(trades: seq<TradeResult>, initial: real, k: nat)
    returns (dd: real, i: nat, j: nat)
    requires initial > 0.0 && k <= |trades|
    ensures NoZeroPeak(trades, initial, k)
    ensures i <= j <= k && EquityAfter(trades, initial, i) > 0.0
    ensures EquityAfter(trades, initial, i) == Peak(trades, initial, j)
    ensures dd == OnePassDrawdown(trades, initial, k)
               == FallPct(EquityAfter(trades, initial, i), EquityAfter(trades, initial, j))
    decreases k
  {
    PositivePeak(trades, initial, k);
    if k == 0 {
      dd, i, j := 0.0, 0, 0;
    } else {
      dd, i, j := DrawdownIsSomeFall(trades, initial, k - 1);
      var here := FallPct(Peak(trades, initial, k), EquityAfter(trades, initial, k));
      if here > OnePassDrawdown(trades, initial, k - 1) {
        PeakIsHighest(trades, initial, k);
        i :| 0 <= i <= k && EquityAfter(trades, initial, i) == Peak(trades, initial, k);
        dd, j := here, k;
      }
    }
  }

  // No fall between two points in time, from positive equity, exceeds x.
  ghost predicate BoundsFalls(trades: seq<TradeResult>, initial: real, x: real) {
    forall j :: 0 <= j <= |trades| ==> BoundsFallsTo(trades, initial, j, x)
  }

  // x is the fall between some two points in time.
  ghost predicate IsFall(trades: seq<TradeResult>, initial: real, x: real) {
    exists i, j :: 0 <= i <= j <= |trades| && EquityAfter(trades, initial, i) > 0.0
      && FallPct(EquityAfter(trades, initial, i), EquityAfter(trades, initial, j)) == x
  }

  // If equity is below zero after trade j, its fall from the trough is no greater than some
  // fall from the running peak, at any point of the series.
  ghost predicate TroughCovered(trades: seq<TradeResult>, initial: real, j: nat)
    requires initial > 0.0 && j <= |trades|
  {
    var e, trough := EquityAfter(trades, initial, j), Trough(trades, initial, j);
    e < 0.0 ==> trough > 0.0 && exists k :: PeakFallAtLeast(trades, initial, k, FallPct(trough, e))
  }

  ghost predicate PeakFallAtLeast(trades: seq<TradeResult>, initial: real, k: nat, x: real) {
    && k <= |trades|
    && Peak(trades, initial, k) > 0.0
    && x <= FallPct(Peak(trades, initial, k), EquityAfter(trades, initial, k))
  }

  // The one-pass number is the greatest of the falls from the running peak.
  lemma OnePassIsGreatestPeakFall(trades: seq<TradeResult>, initial: real, x: real)
    requires initial > 0.0
    ensures NoZeroPeak(trades, initial, |trades|)
    ensures x <= OnePassDrawdown(trades, initial, |trades|) <==> exists k :: PeakFallAtLeast(trades, initial, k, x)
  {
    var dd, i, j := DrawdownIsSomeFall(trades, initial, |trades|);
    assert x <= dd ==> PeakFallAtLeast(trades, initial, j, x);
    forall k | PeakFallAtLeast(trades, initial, k, x)
      ensures x <= dd
    {
      OnePassBoundsPeakFalls(trades, initial, |trades|, k);
    }
  }

  // Maximum drawdown, for a positive start: the one-pass number is always the fall
  // between some two points in time, and it is the greatest of them all if and only if
  // the fall from the trough to every end point below zero is covered by some fall from
  // the running peak.
  lemma DrawdownIsMaximumIff(trades: seq<TradeResult>, initial: real)
    requires initial > 0.0
    ensures NoZeroPeak(trades, initial, |trades|)
    ensures var dd := OnePassDrawdown(trades, initial, |trades|);
            && IsFall(trades, initial, dd)
            && (BoundsFalls(trades, initial, dd) <==>
                  forall j :: 0 <= j <= |trades| ==> TroughCovered(trades, initial, j))
  {
    var dd, i0, j0 := DrawdownIsSomeFall(trades, initial, |trades|);
    forall j | 0 <= j <= |trades|
      ensures BoundsFallsTo(trades, initial, j, dd) <==> TroughCovered(trades, initial, j)
    {
      OnePassBoundsPeakFalls(trades, initial, |trades|, j);
      GreatestFallTo(trades, initial, j, dd);
      var e, trough := EquityAfter(trades, initial, j), Trough(trades, initial, j);
      OnePassIsGreatestPeakFall(trades, initial, FallPct(trough, e));
    }
  }

  // In particular it is the maximum drawdown while equity is never below zero.
  lemma DrawdownIsMaximum(trades: seq<TradeResult>, initial: real)
    requires initial > 0.0 && forall k :: 0 <= k <= |trades| ==> EquityAfter(trades, initial, k) >= 0.0
    ensures NoZeroPeak(trades, initial, |trades|)
    ensures var dd := OnePassDrawdown(trades, initial, |trades|);
            IsFall(trades, initial, dd) && BoundsFalls(trades, initial, dd)
  {
    DrawdownIsMaximumIff(trades, initial);
  }

  // An input for which it is not: from 10 to 5 to -5, the one-pass number is 150 percent
  // while the fall from 5 is 200 percent ...
  lemma BelowZeroUndercounts(id: string)
    ensures var trades := [TradeResult(id, -5.0), TradeResult(id, -10.0)];
            && NoZeroPeak(trades, 10.0, 2)
            && OnePassDrawdown(trades, 10.0, 2) == 150.0
            && IsFall(trades, 10.0, 200.0)
            && !BoundsFalls(trades, 10.0, 150.0)
  {
    var trades := [TradeResult(id, -5.0), TradeResult(id, -10.0)];
    assert EquityAfter(trades, 10.0, 0) == 10.0 && EquityAfter(trades, 10.0, 1) == 5.0;
    PositivePeak(trades, 10.0, 2);
    Reciprocal(10.0, 5.0);
    assert Peak(trades, 10.0, 1) == 10.0 && FallPct(10.0, 5.0) == 50.0;
    assert NoZeroPeak(trades, 10.0, 1) && OnePassDrawdown(trades, 10.0, 0) == 0.0;
    assert OnePassDrawdown(trades, 10.0, 1) == 50.0;
    Reciprocal(10.0, -5.0);
    assert OnePassDrawdown(trades, 10.0, 2) == FallPct(10.0, -5.0) == 150.0;
    Reciprocal(5.0, -5.0);
    assert FallPct(EquityAfter(trades, 10.0, 1), EquityAfter(trades, 10.0, 2)) == 200.0;
    assert !BoundsFallsTo(trades, 10.0, 2, 150.0);
  }

  // ... and one for which it is, although equity ends below zero: from 10 straight to -5.
  lemma BelowZeroMayBeExact(id: string)
    ensures var trades := [TradeResult(id, -15.0)];
            && EquityAfter(trades, 10.0, 1) == -5.0
            && NoZeroPeak(trades, 10.0, 1)
            && OnePassDrawdown(trades, 10.0, 1) == 150.0
            && BoundsFalls(trades, 10.0, 150.0)
  {
    var trades := [TradeResult(id, -15.0)];
    assert EquityAfter(trades, 10.0, 0) == 10.0 && Trough(trades, 10.0, 0) == 10.0;
    PositivePeak(trades, 10.0, 1);
    assert NoZeroPeak(trades, 10.0, 0) && OnePassDrawdown(trades, 10.0, 0) == 0.0;
    Reciprocal(10.0, -5.0);
    assert Peak(trades, 10.0, 1) == 10.0 && FallPct(10.0, -5.0) == 150.0;
    assert PeakFallAtLeast(trades, 10.0, 1, 150.0);
    DrawdownIsMaximumIff(trades, 10.0);
  }

  // ---------------------------------------------------- the breakdown is a partition

  function SumStats(trades: seq<TradeResult>, ids: seq<string>): ModelStats {
    if ids == [] then ModelStats(0, 0.0, 0)
    else
      var rest := SumStats(trades, ids[1..]);
      var s := StatsOf(trades, ids[0]);
      ModelStats(rest.trades + s.trades, rest.pnl + s.pnl, rest.wins + s.wins)
  }

  ghost predicate Distinct(ids: seq<string>) {
    forall i, j :: 0 <= i < j < |ids| ==> ids[i] != ids[j]
  }

  // One more trade adds to the sum over ids exactly when its model is among them.
  lemma {:induction false} SumStatsPush(trades: seq<TradeResult>, t: TradeResult, ids: seq<string>)
    requires Distinct(ids)
    ensures var before := SumStats(trades, ids);
            SumStats(trades + [t], ids) ==
              if t.modelId in ids
              then before.With(t)
              else before
  {
    assert (trades + [t])[..|trades|] == trades;
    if ids == [] {
    } else {
      assert Distinct(ids[1..]);
      SumStatsPush(trades, t, ids[1..]);
    }
  }

  lemma {:induction false} SumStatsEmpty(ids: seq<string>)
    ensures SumStats([], ids) == ModelStats(0, 0.0, 0)
  {
    if ids == [] {
    } else {
      SumStatsEmpty(ids[1..]);
    }
  }

  // Listing every model once, the per-model trades, P&L and wins add up to the totals.
  lemma {:induction false} BreakdownSumsToTotals(trades: seq<TradeResult>, ids: seq<string>)
    requires Distinct(ids) && forall t <- trades :: t.modelId in ids
    ensures SumStats(trades, ids) == ModelStats(|trades|, TotalPnl(trades), Wins(trades))
  {
    if trades == [] {
      SumStatsEmpty(ids);
    } else {
      var n := |trades| - 1;
      assert trades == trades[..n] + [trades[n]];
      BreakdownSumsToTotals(trades[..n], ids);
      SumStatsPush(trades[..n], trades[n], ids);
    }
  }
}
