/** The rolling performance record of a model and its retirement
    (alphaTrade/risk/performance.py). */
module Performance {
  import opened Wrappers
  import opened RealMath

  // lookback may be any integer here: nothing in the configuration bounds it.
  // period is None when the configured text does not parse, which raises.
  datatype RetirementConfig = RetirementConfig(
    enabled: bool,
    lookback: int,
    minWinRate: real,
    minRollingPnl: real,
    period: Option<real>,
    minTrades: int)

  // trades[-n:]
  function LastItems(trades: seq<real>, n: int): seq<real> {
    if n > 0 then (if n < |trades| then trades[|trades| - n..] else trades)
    else if -n <= |trades| then trades[-n..]
    else []
  }

  function NextWindow(window: seq<real>, pnl: real, lookback: int): seq<real> {
    var trades := window + [pnl];
    if |trades| > lookback then LastItems(trades, lookback) else trades
  }

  function Sum(s: seq<real>): real {
    if s == [] then 0.0 else Sum(s[..|s| - 1]) + s[|s| - 1]
  }

  function Wins(s: seq<real>): nat {
    if s == [] then 0 else Wins(s[..|s| - 1]) + (if s[|s| - 1] > 0.0 then 1 else 0)
  }

  // The stored record.
  datatype Perf = Perf(
    window: seq<real>,
    rollingPnl: real,
    tradeCount: nat,
    winCount: nat,
    firstTradeAt: Option<real>,
    retired: bool,
    retiredAt: Option<real>)

  const FRESH := Perf([], 0.0, 0, 0, None, false, None)

  function Recorded(p: Perf, pnl: real, lookback: int, now: real): Perf {
    var window := NextWindow(p.window, pnl, lookback);
    p.(window := window,
       rollingPnl := Sum(window),
       tradeCount := p.tradeCount + 1,
       winCount := p.winCount + (if pnl > 0.0 then 1 else 0),
       firstTradeAt := if p.tradeCount == 0 then Some(now) else p.firstTradeAt)
  }

  function WinRate(window: seq<real>): real {
    if |window| == 0 then 0.0 else Wins(window) as real / |window| as real
  }

  // Enough history to be judged: old enough, or enough trades.
  predicate Evaluated(p: Perf, cfg: RetirementConfig, now: real)
    requires cfg.period.Some?
  {
    (p.firstTradeAt.Some? && now - p.firstTradeAt.value >= cfg.period.value) || p.tradeCount >= cfg.minTrades
  }

  predicate BelowThreshold(p: Perf, cfg: RetirementConfig) {
    WinRate(p.window) < cfg.minWinRate || Sum(p.window) < cfg.minRollingPnl
  }

  // None: the period does not parse and the check raises.
  function Verdict(p: Perf, cfg: RetirementConfig, now: real): Option<bool> {
    if !cfg.enabled then Some(false)
    else if p.retired then Some(true)
    else if cfg.period.None? then None
    else Some(Evaluated(p, cfg, now) && BelowThreshold(p, cfg))
  }

  function Checked(p: Perf, cfg: RetirementConfig, now: real): Perf {
    if Verdict(p, cfg, now) == Some(true) && !p.retired then p.(retired := true, retiredAt := Some(now)) else p
  }

  class ModelPerformance {
    var window: seq<real>
    var rollingPnl: real
    var tradeCount: nat
    var winCount: nat
    var firstTradeAt: Option<real>
    var retired: bool
    var retiredAt: Option<real>

    ghost function Record(): Perf
      reads this
    {
      Perf(window, rollingPnl, tradeCount, winCount, firstTradeAt, retired, retiredAt)
    }

    constructor ()
      ensures Record() == FRESH
    {
      window, rollingPnl, tradeCount, winCount := [], 0.0, 0, 0;
      firstTradeAt, retired, retiredAt := None, false, None;
    }

    method RecordTrade(pnl: real, cfg: RetirementConfig, now: real)
      modifies this
      ensures Record() == Recorded(old(Record()), pnl, cfg.lookback, now)
    {
      var trades := window + [pnl];
      if |trades| > cfg.lookback {
        trades := LastItems(trades, cfg.lookback);
      }
      window := trades;
      if tradeCount == 0 {
        firstTradeAt := Some(now);
      }
      tradeCount := tradeCount + 1;
      if pnl > 0.0 {
        winCount := winCount + 1;
      }
      rollingPnl := Sum(trades);
    }

    method CheckRetirement(cfg: RetirementConfig, now: real) returns (verdict: Option<bool>)
      modifies this
      ensures verdict == Verdict(old(Record()), cfg, now)
      ensures Record() == Checked(old(Record()), cfg, now)
    {
      if !cfg.enabled {
        return Some(false);
      }
      if retired {
        return Some(true);
      }
      if cfg.period.None? {
        return None;
      }
      var ageOk := firstTradeAt.Some? && now - firstTradeAt.value >= cfg.period.value;
      var tradesOk := tradeCount >= cfg.minTrades;
      if !(ageOk || tradesOk) {
        return Some(false);
      }
      var shouldRetire := WinRate(window) < cfg.minWinRate || Sum(window) < cfg.minRollingPnl;
      if shouldRetire {
        retired := true;
        retiredAt := Some(now);
      }
      return Some(shouldRetire);
    }
  }

  // ------------------------------------------------- what the functions amount to

  lemma {:induction false} WinsIs(s: seq<real>)
    ensures Wins(s) == |set k | 0 <= k < |s| && s[k] > 0.0|
  {
    var won := set k | 0 <= k < |s| && s[k] > 0.0;
    if s == [] {
      assert won == {};
    } else {
      var n := |s| - 1;
      WinsIs(s[..n]);
      assert won == (set k | 0 <= k < n && s[..n][k] > 0.0) + (if s[n] > 0.0 then {n} else {});
    }
  }

  lemma {:induction false} SumIs(a: seq<real>, b: seq<real>, x: real)
    ensures Sum([]) == 0.0 && Sum([x]) == x && Sum(a + b) == Sum(a) + Sum(b)
  {
    assert [x][..0] == [];
    if b == [] {
      assert a + b == a;
    } else {
      var n := |b| - 1;
      SumIs(a, b[..n], x);
      assert (a + b)[..|a + b| - 1] == a + b[..n];
    }
  }

  // Recording a trade: the counters and the time of the first trade. Nothing it does
  // retires a model or brings it back.
  lemma RecordedIs(p: Perf, pnl: real, lookback: int, now: real)
    ensures var r := Recorded(p, pnl, lookback, now);
            && r.tradeCount == p.tradeCount + 1
            && r.winCount == (if pnl > 0.0 then p.winCount + 1 else p.winCount)
            && r.firstTradeAt == (if p.tradeCount == 0 then Some(now) else p.firstTradeAt)
            && r.rollingPnl == Sum(r.window)
            && r.retired == p.retired && r.retiredAt == p.retiredAt
  {
  }

  // A negative lookback takes that many of the oldest off a window that still has them.
  lemma NegativeLookback(window: seq<real>, pnl: real, n: int)
    requires n > 0
    ensures NextWindow(window, pnl, -n) == if n <= |window| then window[n..] + [pnl] else []
  {
  }

  // The share of the trades in the window that won is under a bound; none of none is 0.
  ghost predicate WinsUnder(window: seq<real>, bound: real) {
    var won := |set k | 0 <= k < |window| && window[k] > 0.0|;
    if window == [] then 0.0 < bound else won as real < bound * |window| as real
  }

  // When a check retires a model that is not retired yet: it is enabled, the model has
  // traded for long enough or often enough, and too small a share of the trades in its
  // window won or their sum is too low. It is retired as of now, and nothing else changes.
  lemma RetiresIff(p: Perf, cfg: RetirementConfig, now: real)
    requires !p.retired
    ensures var q := Checked(p, cfg, now);
            && (q.retired <==>
                  && cfg.enabled && cfg.period.Some?
                  && (|| (p.firstTradeAt.Some? && p.firstTradeAt.value + cfg.period.value <= now)
                      || cfg.minTrades <= p.tradeCount)
                  && (WinsUnder(p.window, cfg.minWinRate) || Sum(p.window) < cfg.minRollingPnl))
            && q == (if q.retired then p.(retired := true, retiredAt := Some(now)) else p)
  {
    WinsIs(p.window);
    if p.window != [] {
      RateUnder(Wins(p.window), |p.window|, cfg.minWinRate);
    }
  }

  lemma RateUnder(won: nat, of: nat, bound: real)
    requires of > 0
    ensures won as real / of as real < bound <==> won as real < bound * of as real
  {
    var rate := won as real / of as real;
    assert rate * of as real == won as real;
    MulMono(if rate < bound then rate else bound, if rate < bound then bound else rate, of as real);
  }

  // Each breach alone retires, and either way of having enough history alone suffices.
  lemma EachBreachRetires(p: Perf, cfg: RetirementConfig, now: real)
    requires !p.retired && cfg.enabled && cfg.period.Some?
    requires || (p.firstTradeAt.Some? && p.firstTradeAt.value + cfg.period.value <= now)
             || cfg.minTrades <= p.tradeCount
    requires WinsUnder(p.window, cfg.minWinRate) || Sum(p.window) < cfg.minRollingPnl
    ensures Checked(p, cfg, now).retired && Verdict(p, cfg, now) == Some(true)
  {
    RetiresIff(p, cfg, now);
  }

  // What the caller is told: no when checks are disabled, else whether the model is retired
  // now; the check raises for a model not yet retired when the period does not parse.
  lemma VerdictIs(p: Perf, cfg: RetirementConfig, now: real)
    ensures Verdict(p, cfg, now) ==
            if !cfg.enabled then Some(false)
            else if !p.retired && cfg.period.None? then None
            else Some(Checked(p, cfg, now).retired)
    ensures p.retired ==> Checked(p, cfg, now) == p
  {
  }

  // ------------------------------------------------------------- any history

  datatype Event = Trade(pnl: real, lookback: int, at: real) | Check(cfg: RetirementConfig, now: real)

  function After(p: Perf, e: Event): Perf {
    match e
    case Trade(pnl, lookback, now) => Recorded(p, pnl, lookback, now)
    case Check(cfg, now) => Checked(p, cfg, now)
  }

  function History(events: seq<Event>): Perf {
    if events == [] then FRESH else After(History(events[..|events| - 1]), events[|events| - 1])
  }

  // Every trade recorded, in order.
  function AllPnls(events: seq<Event>): seq<real> {
    if events == [] then []
    else
      var before, e := AllPnls(events[..|events| - 1]), events[|events| - 1];
      if e.Trade? then before + [e.pnl] else before
  }

  ghost predicate IsSuffix(s: seq<real>, all: seq<real>) {
    |s| <= |all| && s == all[|all| - |s|..]
  }

  lemma NextWindowIsSuffix(window: seq<real>, all: seq<real>, pnl: real, lookback: int)
    requires IsSuffix(window, all)
    ensures IsSuffix(NextWindow(window, pnl, lookback), all + [pnl])
  {
    assert window + [pnl] == (all + [pnl])[|all| - |window|..];
  }

  // What a record says about all the trades behind it.
  ghost predicate Summarizes(p: Perf, all: seq<real>) {
    && IsSuffix(p.window, all)
    && p.rollingPnl == Sum(p.window)
    && p.tradeCount == |all|
    && p.winCount == Wins(all)
    && (p.firstTradeAt.Some? <==> p.tradeCount > 0)
  }

  lemma WinsPush(all: seq<real>, pnl: real)
    ensures Wins(all + [pnl]) == Wins(all) + (if pnl > 0.0 then 1 else 0)
  {
    assert (all + [pnl])[..|all|] == all;
  }

  lemma RecordedSummarizes(p: Perf, all: seq<real>, pnl: real, lookback: int, now: real)
    requires Summarizes(p, all)
    ensures Summarizes(Recorded(p, pnl, lookback, now), all + [pnl])
  {
    var r := Recorded(p, pnl, lookback, now);
    assert IsSuffix(r.window, all + [pnl]) by {
      NextWindowIsSuffix(p.window, all, pnl, lookback);
    }
    assert r.winCount == Wins(all + [pnl]) by {
      WinsPush(all, pnl);
    }
  }

  // After any history, whatever the lookbacks: the window is a suffix of all trades, the
  // rolling P&L is its sum, and the counters cover every trade ever recorded.
  lemma {:induction false} RecordMatchesHistory(events: seq<Event>)
    ensures Summarizes(History(events), AllPnls(events))
  {
    if events == [] {
    } else {
      var n := |events| - 1;
      RecordMatchesHistory(events[..n]);
      if events[n].Trade? {
        RecordedSummarizes(History(events[..n]), AllPnls(events[..n]), events[n].pnl, events[n].lookback, events[n].at);
      }
    }
  }

  // The window is no longer than the lookback it was last cut to, exactly when that
  // lookback is at least one: a zero or negative lookback never shortens it enough.
  lemma WindowFitsIffLookbackPositive(window: seq<real>, pnl: real, lookback: int)
    ensures |NextWindow(window, pnl, lookback)| <= lookback <==> lookback >= 1
  {
  }

  // With lookback zero nothing is ever dropped: the slice trades[-0:] is the whole list.
  lemma ZeroLookbackKeepsAll(window: seq<real>, pnl: real)
    ensures NextWindow(window, pnl, 0) == window + [pnl]
  {
  }

  ghost predicate FixedLookback(events: seq<Event>, lookback: int) {
    forall e <- events :: e.Trade? ==> e.lookback == lookback
  }

  lemma NextWindowIsLast(all: seq<real>, pnl: real, lookback: int)
    requires lookback >= 1
    ensures NextWindow(LastItems(all, lookback), pnl, lookback) == LastItems(all + [pnl], lookback)
  {
  }

  // With one lookback throughout, the window is exactly the last min(n, lookback) trades.
  lemma {:induction false} FixedLookbackWindow(events: seq<Event>, lookback: int)
    requires lookback >= 1 && FixedLookback(events, lookback)
    ensures History(events).window == LastItems(AllPnls(events), lookback)
    ensures |History(events).window| == if |AllPnls(events)| < lookback then |AllPnls(events)| else lookback
  {
    if events == [] {
    } else {
      var n := |events| - 1;
      assert events[n] in events;
      FixedLookbackWindow(events[..n], lookback);
      if events[n].Trade? {
        NextWindowIsLast(AllPnls(events[..n]), events[n].pnl, lookback);
      }
    }
  }

  // Once retired, a model stays retired, with the time of its retirement, through any
  // further trades and checks.
  lemma {:induction false} RetiredForGood(events: seq<Event>, more: seq<Event>)
    requires History(events).retired
    ensures History(events + more).retired && History(events + more).retiredAt == History(events).retiredAt
  {
    if more == [] {
      assert events + more == events;
    } else {
      var n := |more| - 1;
      RetiredForGood(events, more[..n]);
      assert (events + more)[..|events + more| - 1] == events + more[..n];
    }
  }

  // A model is retired at some point of a history only by an enabled check that found
  // it evaluated and below a threshold.
  lemma {:induction false} RetiredOnlyByCheck(events: seq<Event>) returns (k: nat)
    requires History(events).retired
    ensures k < |events| && events[k].Check?
    ensures var c := events[k]; var p := History(events[..k]);
            && c.cfg.enabled && c.cfg.period.Some? && !p.retired
            && Evaluated(p, c.cfg, c.now) && BelowThreshold(p, c.cfg)
  {
    var n := |events| - 1;
    if History(events[..n]).retired {
      k := RetiredOnlyByCheck(events[..n]);
      assert events[..n][..k] == events[..k];
    } else {
      k := n;
    }
  }
}
