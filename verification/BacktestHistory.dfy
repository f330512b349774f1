/** Which trades a backtest makes: a declarative account of a trade list, bar by bar
    causes and all, and the proof that the run's list satisfies it and is the only one
    that does. First-touch exits, non-overlap and the accounting are consequences. */
module BacktestHistory {
  import opened Wrappers
  import opened Trading
  import opened Backtest

  // ------------------------------------------------------------ the account

  // Nothing happens to the position at bar i: no level touched, no opposing signal.
  ghost predicate QuietAt(m: Market, pos: Position, i: nat)
    requires m.Valid() && i < |m.bars|
  {
    HitAt(m.checker, pos, m.bars[i], i) == None && !Opposes(m.signals[i], pos.side)
  }

  ghost predicate Quiet(m: Market, pos: Position, from: nat, to: nat)
    requires m.Valid()
  {
    forall i :: from <= i < to && i < |m.bars| ==> QuietAt(m, pos, i)
  }

  // No signal to enter on bars from .. to - 1.
  ghost predicate AllHold(m: Market, from: nat, to: int)
    requires m.Valid()
  {
    forall i :: from <= i < to && i < |m.bars| ==> m.signals[i].Hold?
  }

  // The position is opened by the first entry signal on or after bar from, at the open
  // of the next bar, sized on the equity at hand.
  ghost predicate Entered(cfg: Config, m: Market, pos: Position, from: nat, equity: real)
    requires m.Valid()
  {
    && from < pos.entryBar < |m.bars|
    && AllHold(m, from, pos.entryBar - 1)
    && m.signals[pos.entryBar - 1] == Go(pos.side)
    && var price := SimulateFill(pos.side, m.bars[pos.entryBar].open, cfg.slippageBps);
       price != 0.0 && pos == OpenPosition(cfg, equity, pos.side, price, pos.entryBar)
  }

  // The exit is the earliest cause after entry, and its price and P&L follow from it.
  ghost predicate Exited(cfg: Config, m: Market, t: Trade)
    requires m.Valid()
  {
    var n := |m.bars|;
    && t.pos.entryBar <= t.exitBar < n
    && t.pnl == Realized(cfg, t.pos, t.exitPrice)
    && match t.reason
       case SIGNAL =>
         && t.pos.entryBar < t.exitBar
         && Quiet(m, t.pos, t.pos.entryBar, t.exitBar - 1)
         && HitAt(m.checker, t.pos, m.bars[t.exitBar - 1], t.exitBar - 1) == None
         && Opposes(m.signals[t.exitBar - 1], t.pos.side)
         && t.exitPrice == SimulateFill(m.signals[t.exitBar - 1].side, m.bars[t.exitBar].open, cfg.slippageBps)
       case END_OF_DATA =>
         && t.exitBar == n - 1
         && Quiet(m, t.pos, t.pos.entryBar, n - 1)
         && t.exitPrice == m.bars[n - 1].close
       case _ =>
         && t.exitBar < n - 1
         && Quiet(m, t.pos, t.pos.entryBar, t.exitBar)
         && HitAt(m.checker, t.pos, m.bars[t.exitBar], t.exitBar) == Some(Hit(t.reason, t.exitPrice))
  }

  function SumPnl(trades: seq<Trade>): real {
    if trades == [] then 0.0 else SumPnl(trades[..|trades| - 1]) + trades[|trades| - 1].pnl
  }

  // The bar from which the run looks for its next entry.
  function FlatFrom(trades: seq<Trade>, start: nat): nat {
    if trades == [] then start else trades[|trades| - 1].exitBar
  }

  ghost predicate ExplainedAt(cfg: Config, m: Market, start: nat, trades: seq<Trade>, j: nat)
    requires m.Valid() && j < |trades|
  {
    && Entered(cfg, m, trades[j].pos, FlatFrom(trades[..j], start), cfg.initialEquity + SumPnl(trades[..j]))
    && Exited(cfg, m, trades[j])
  }

  ghost predicate Explained(cfg: Config, m: Market, start: nat, trades: seq<Trade>)
    requires m.Valid()
  {
    forall j :: 0 <= j < |trades| ==> ExplainedAt(cfg, m, start, trades, j)
  }

  // The full account: every trade is explained, and nothing was missed after the last.
  ghost predicate History(cfg: Config, m: Market, start: nat, trades: seq<Trade>)
    requires m.Valid()
  {
    && Explained(cfg, m, start, trades)
    && AllHold(m, FlatFrom(trades, start), |m.bars| - 1)
  }

  // ------------------------------------------------------------ the run keeps it

  // What is true of the loop's variables before bar i is looked at.
  ghost predicate Coherent(cfg: Config, m: Market, start: nat, i: nat, s: Sim)
    requires m.Valid() && i < |m.bars|
  {
    && Explained(cfg, m, start, s.trades)
    && (forall t <- s.trades :: t.exitBar <= i && t.reason != END_OF_DATA)
    && s.equity == cfg.initialEquity + SumPnl(s.trades)
    && start <= FlatFrom(s.trades, start) <= i
    && (s.position.None? ==> AllHold(m, FlatFrom(s.trades, start), i))
    && (s.position.Some? ==>
          && Entered(cfg, m, s.position.value, FlatFrom(s.trades, start), s.equity)
          && s.position.value.entryBar <= i
          && Quiet(m, s.position.value, s.position.value.entryBar, i))
  }

  lemma ExplainedPush(cfg: Config, m: Market, start: nat, trades: seq<Trade>, t: Trade)
    requires m.Valid() && Explained(cfg, m, start, trades)
    requires Entered(cfg, m, t.pos, FlatFrom(trades, start), cfg.initialEquity + SumPnl(trades))
    requires Exited(cfg, m, t)
    ensures Explained(cfg, m, start, trades + [t])
    ensures SumPnl(trades + [t]) == SumPnl(trades) + t.pnl
  {
    var all := trades + [t];
    assert all[..|trades|] == trades;
    forall j | 0 <= j < |all|
      ensures ExplainedAt(cfg, m, start, all, j)
    {
      if j < |trades| {
        assert ExplainedAt(cfg, m, start, trades, j);
        assert all[..j] == trades[..j];
      }
    }
  }

  // After the stop/target check of bar i: either still quiet through bar i's check, or
  // flat with the exit explained.
  lemma CheckCoherent(cfg: Config, m: Market, start: nat, i: nat, s: Sim)
    requires m.Valid() && start <= i && i + 1 < |m.bars| && Coherent(cfg, m, start, i, s)
    ensures var s1 := AfterCheck(cfg, m.checker, m.bars[i], i, s);
            && Coherent(cfg, m, start, i, s1)
            && (s1.position.Some? ==> HitAt(m.checker, s1.position.value, m.bars[i], i) == None)
  {
    var s1 := AfterCheck(cfg, m.checker, m.bars[i], i, s);
    if s1 != s {
      var hit := HitAt(m.checker, s.position.value, m.bars[i], i).value;
      var t := Trade(s.position.value, hit.price, i, Realized(cfg, s.position.value, hit.price), hit.reason);
      HitReason(m.checker, s.position.value, m.bars[i], i);
      assert s1 == CloseAt(cfg, s, hit.price, i, hit.reason);
      assert s1.trades == s.trades + [t];
      ExplainedPush(cfg, m, start, s.trades, t);
    }
  }

  lemma HitReason(c: Checker, pos: Position, bar: Bar, i: nat)
    requires c.Lagged? ==> i < |c.fractions|
    ensures var hit := HitAt(c, pos, bar, i); hit.Some? ==> hit.value.reason == SL || hit.value.reason == TP
  {
  }

  lemma EntryCoherent(cfg: Config, m: Market, start: nat, i: nat, s: Sim)
    requires m.Valid() && start <= i && i + 1 < |m.bars| && Coherent(cfg, m, start, i, s)
    requires m.signals[i].Go? && s.position.None?
    ensures var s1 := AfterSignal(cfg, m.bars[i + 1], m.signals[i], i, s);
            s1.Some? ==> Coherent(cfg, m, start, i + 1, s1.value)
  {
  }

  lemma OpposedCoherent(cfg: Config, m: Market, start: nat, i: nat, s: Sim)
    requires m.Valid() && start <= i && i + 1 < |m.bars| && Coherent(cfg, m, start, i, s)
    requires s.position.Some? && HitAt(m.checker, s.position.value, m.bars[i], i) == None
    requires Opposes(m.signals[i], s.position.value.side)
    ensures var s1 := AfterSignal(cfg, m.bars[i + 1], m.signals[i], i, s);
            s1.Some? ==> Coherent(cfg, m, start, i + 1, s1.value)
  {
    var signal := m.signals[i];
    var price := SimulateFill(signal.side, m.bars[i + 1].open, cfg.slippageBps);
    var t := Trade(s.position.value, price, i + 1, Realized(cfg, s.position.value, price), SIGNAL);
    assert AfterSignal(cfg, m.bars[i + 1], signal, i, s).value.trades == s.trades + [t];
    ExplainedPush(cfg, m, start, s.trades, t);
  }

  lemma SignalCoherent(cfg: Config, m: Market, start: nat, i: nat, s: Sim)
    requires m.Valid() && start <= i && i + 1 < |m.bars| && Coherent(cfg, m, start, i, s)
    requires s.position.Some? ==> HitAt(m.checker, s.position.value, m.bars[i], i) == None
    ensures var s1 := AfterSignal(cfg, m.bars[i + 1], m.signals[i], i, s);
            s1.Some? ==> Coherent(cfg, m, start, i + 1, s1.value)
  {
    if s.position.None? && m.signals[i].Go? {
      EntryCoherent(cfg, m, start, i, s);
    } else if s.position.Some? && Opposes(m.signals[i], s.position.value.side) {
      OpposedCoherent(cfg, m, start, i, s);
    }
  }

  lemma {:induction false} WalkCoherent(cfg: Config, m: Market, start: nat, end: nat)
    requires m.Valid() && start <= end < |m.bars|
    ensures var s := Walk(cfg, m, start, end); s.Some? ==> Coherent(cfg, m, start, end, s.value)
    decreases end
  {
    if end <= start {
    } else {
      WalkCoherent(cfg, m, start, end - 1);
      var s := Walk(cfg, m, start, end - 1);
      if s.Some? {
        StepCoherent(cfg, m, start, end - 1, s.value);
      }
    }
  }

  lemma StepCoherent(cfg: Config, m: Market, start: nat, i: nat, s: Sim)
    requires m.Valid() && start <= i && i + 1 < |m.bars| && Coherent(cfg, m, start, i, s)
    ensures var s1 := Step(cfg, m, i, s); s1.Some? ==> Coherent(cfg, m, start, i + 1, s1.value)
  {
    CheckCoherent(cfg, m, start, i, s);
    SignalCoherent(cfg, m, start, i, AfterCheck(cfg, m.checker, m.bars[i], i, s));
  }

  // Closing what is open at the last bar completes the account.
  lemma FinishExplained(cfg: Config, m: Market, start: nat, s: Sim)
    requires m.Valid() && start < |m.bars| - 1 && Coherent(cfg, m, start, |m.bars| - 1, s)
    ensures var f := Finish(cfg, m, s);
            History(cfg, m, start, f.trades) && f.equity == cfg.initialEquity + SumPnl(f.trades)
  {
    if s.position.Some? {
      var last := |m.bars| - 1;
      var price := m.bars[last].close;
      var t := Trade(s.position.value, price, last, Realized(cfg, s.position.value, price), END_OF_DATA);
      assert Finish(cfg, m, s).trades == s.trades + [t];
      ExplainedPush(cfg, m, start, s.trades, t);
    }
  }

  // A run that completes has made exactly the trades of the account, and its equity is
  // the initial equity plus all realised P&L.
  lemma RunIsHistory(cfg: Config, m: Market, start: nat)
    requires m.Valid() && |m.bars| > 0 && Run(cfg, m, start).Ran?
    ensures var r := Run(cfg, m, start);
            && History(cfg, m, start, r.trades)
            && r.equity == cfg.initialEquity + SumPnl(r.trades)
  {
    if start < |m.bars| - 1 {
      WalkCoherent(cfg, m, start, |m.bars| - 1);
      FinishExplained(cfg, m, start, Walk(cfg, m, start, |m.bars| - 1).value);
    }
  }

  // ---------------------------------------------------- and no other list does

  lemma EntryNotLater(cfg: Config, m: Market, a: Position, b: Position, from: nat, equity: real)
    requires m.Valid() && Entered(cfg, m, a, from, equity) && Entered(cfg, m, b, from, equity)
    ensures a.entryBar <= b.entryBar
  {
    assert !m.signals[b.entryBar - 1].Hold?;
  }

  // Two entries from the same bar with the same equity are the same entry.
  lemma EntryUnique(cfg: Config, m: Market, a: Position, b: Position, from: nat, equity: real)
    requires m.Valid() && Entered(cfg, m, a, from, equity) && Entered(cfg, m, b, from, equity)
    ensures a == b
  {
    EntryNotLater(cfg, m, a, b, from, equity);
    EntryNotLater(cfg, m, b, a, from, equity);
  }

  // The bar whose look ended the trade; for END_OF_DATA, the bar never looked at.
  function CauseBar(t: Trade): int {
    if t.reason == SIGNAL then t.exitBar - 1 else t.exitBar
  }

  lemma CauseUnique(cfg: Config, m: Market, a: Trade, b: Trade)
    requires m.Valid() && Exited(cfg, m, a) && Exited(cfg, m, b) && a.pos == b.pos
    ensures CauseBar(a) <= CauseBar(b)
  {
    var i := CauseBar(b);
    assert 0 <= i < |m.bars|;
    assert b.reason != END_OF_DATA ==> !QuietAt(m, b.pos, i);
    assert Quiet(m, a.pos, a.pos.entryBar, CauseBar(a));
  }

  // The earliest cause is one cause: two exits of the same position are the same exit.
  lemma ExitUnique(cfg: Config, m: Market, a: Trade, b: Trade)
    requires m.Valid() && Exited(cfg, m, a) && Exited(cfg, m, b) && a.pos == b.pos
    ensures a == b
  {
    CauseUnique(cfg, m, a, b);
    CauseUnique(cfg, m, b, a);
  }

  lemma HistoriesAgree(cfg: Config, m: Market, start: nat, a: seq<Trade>, b: seq<Trade>, j: nat)
    requires m.Valid() && Explained(cfg, m, start, a) && Explained(cfg, m, start, b)
    requires j <= |a| && j <= |b|
    ensures a[..j] == b[..j]
  {
    if j == 0 {
    } else {
      HistoriesAgree(cfg, m, start, a, b, j - 1);
      assert ExplainedAt(cfg, m, start, a, j - 1) && ExplainedAt(cfg, m, start, b, j - 1);
      EntryUnique(cfg, m, a[j - 1].pos, b[j - 1].pos,
                  FlatFrom(a[..j - 1], start), cfg.initialEquity + SumPnl(a[..j - 1]));
      ExitUnique(cfg, m, a[j - 1], b[j - 1]);
      assert a[..j] == a[..j - 1] + [a[j - 1]] && b[..j] == b[..j - 1] + [b[j - 1]];
    }
  }

  // After the first j trades there is a signal to enter that the account must honour.
  lemma NextEntry(cfg: Config, m: Market, start: nat, trades: seq<Trade>, j: nat)
    requires m.Valid() && Explained(cfg, m, start, trades) && j < |trades|
    ensures !AllHold(m, FlatFrom(trades[..j], start), |m.bars| - 1)
  {
    assert ExplainedAt(cfg, m, start, trades, j);
    assert !m.signals[trades[j].pos.entryBar - 1].Hold?;
  }

  lemma NotLonger(cfg: Config, m: Market, start: nat, a: seq<Trade>, b: seq<Trade>)
    requires m.Valid() && History(cfg, m, start, a) && History(cfg, m, start, b)
    ensures |b| <= |a|
  {
    if |a| < |b| {
      HistoriesAgree(cfg, m, start, a, b, |a|);
      NextEntry(cfg, m, start, b, |a|);
      assert false;
    }
  }

  lemma HistoryUnique(cfg: Config, m: Market, start: nat, a: seq<Trade>, b: seq<Trade>)
    requires m.Valid() && History(cfg, m, start, a) && History(cfg, m, start, b)
    ensures a == b
  {
    NotLonger(cfg, m, start, a, b);
    NotLonger(cfg, m, start, b, a);
    HistoriesAgree(cfg, m, start, a, b, |a|);
    assert a == a[..|a|] && b == b[..|b|];
  }

  // The account characterises the run: when it completes, a list satisfies the account
  // if and only if it is the list of trades made.
  lemma RunIffHistory(cfg: Config, m: Market, start: nat, trades: seq<Trade>)
    requires m.Valid() && |m.bars| > 0 && Run(cfg, m, start).Ran?
    ensures History(cfg, m, start, trades) <==> trades == Run(cfg, m, start).trades
  {
    RunIsHistory(cfg, m, start);
    if History(cfg, m, start, trades) {
      HistoryUnique(cfg, m, start, trades, Run(cfg, m, start).trades);
    }
  }

  // -------------------------------------------------------------- when a run raises

  // The account of some trades is followed by an entry, into bar e, at a price of zero.
  ghost predicate EntryAtZero(cfg: Config, m: Market, start: nat, trades: seq<Trade>, e: nat)
    requires m.Valid()
  {
    && Explained(cfg, m, start, trades)
    && FlatFrom(trades, start) < e < |m.bars|
    && AllHold(m, FlatFrom(trades, start), e - 1)
    && m.signals[e - 1].Go?
    && SimulateFill(m.signals[e - 1].side, m.bars[e].open, cfg.slippageBps) == 0.0
  }

  // Inference raises on some bar the walk gets to look at.
  ghost predicate RaisesWithin(m: Market, start: nat, end: int)
    requires m.Valid()
  {
    exists i :: start <= i < end && i < |m.signals| && m.signals[i].Raises?
  }

  lemma {:induction false} FailedWalkHasCause(cfg: Config, m: Market, start: nat, end: nat)
    returns (trades: seq<Trade>, e: nat)
    requires m.Valid() && end < |m.bars| && Walk(cfg, m, start, end) == None
    ensures RaisesWithin(m, start, end) || EntryAtZero(cfg, m, start, trades, e)
    decreases end
  {
    trades, e := [], 0;
    var s := Walk(cfg, m, start, end - 1);
    if s.None? {
      trades, e := FailedWalkHasCause(cfg, m, start, end - 1);
    } else if !m.signals[end - 1].Raises? {
      WalkCoherent(cfg, m, start, end - 1);
      FailedStepHasZeroEntry(cfg, m, start, end - 1, s.value);
      trades, e := AfterCheck(cfg, m.checker, m.bars[end - 1], end - 1, s.value).trades, end;
    }
  }

  lemma FailedStepHasZeroEntry(cfg: Config, m: Market, start: nat, i: nat, s: Sim)
    requires m.Valid() && start <= i && i + 1 < |m.bars| && Coherent(cfg, m, start, i, s)
    requires Step(cfg, m, i, s) == None && !m.signals[i].Raises?
    ensures EntryAtZero(cfg, m, start, AfterCheck(cfg, m.checker, m.bars[i], i, s).trades, i + 1)
  {
    CheckCoherent(cfg, m, start, i, s);
  }

  // A completed run has asked for inference on every bar of the walk.
  lemma {:induction false} CompletedWalkNeverRaises(cfg: Config, m: Market, start: nat, end: nat)
    requires m.Valid() && end < |m.bars| && Walk(cfg, m, start, end).Some?
    ensures !RaisesWithin(m, start, end)
    decreases end
  {
    if end <= start {
    } else {
      CompletedWalkNeverRaises(cfg, m, start, end - 1);
    }
  }

  lemma ZeroEntryExcludesHistory(cfg: Config, m: Market, start: nat, full: seq<Trade>, trades: seq<Trade>, e: nat)
    requires m.Valid() && History(cfg, m, start, full)
    ensures !EntryAtZero(cfg, m, start, trades, e)
  {
    if EntryAtZero(cfg, m, start, trades, e) {
      if |trades| <= |full| {
        HistoriesAgree(cfg, m, start, full, trades, |trades|);
        PrefixEntry(cfg, m, start, full, trades, e);
      } else {
        HistoriesAgree(cfg, m, start, full, trades, |full|);
        NextEntry(cfg, m, start, trades, |full|);
      }
    }
  }

  // A completed account leaves no room for an entry at zero after one of its prefixes.
  lemma PrefixEntry(cfg: Config, m: Market, start: nat, full: seq<Trade>, trades: seq<Trade>, e: nat)
    requires m.Valid() && History(cfg, m, start, full)
    requires |trades| <= |full| && trades == full[..|trades|]
    ensures !EntryAtZero(cfg, m, start, trades, e)
  {
    var j := |trades|;
    if j < |full| {
      assert ExplainedAt(cfg, m, start, full, j);
      assert !m.signals[full[j].pos.entryBar - 1].Hold?;
    } else {
      assert full[..|full|] == full;
    }
  }

  // A run raises if and only if inference raises on a bar of the walk or, after some
  // explained trades, the next signal to enter fills at a price of zero.
  lemma RunFailsIff(cfg: Config, m: Market, start: nat)
    requires m.Valid() && |m.bars| > 0
    ensures Run(cfg, m, start).Failed? <==>
              RaisesWithin(m, start, |m.bars| - 1) || exists trades, e :: EntryAtZero(cfg, m, start, trades, e)
  {
    if Run(cfg, m, start).Failed? {
      var trades, e := FailedWalkHasCause(cfg, m, start, |m.bars| - 1);
    } else {
      CompletedWalkNeverRaises(cfg, m, start, |m.bars| - 1);
      RunIsHistory(cfg, m, start);
      forall trades, e
        ensures !EntryAtZero(cfg, m, start, trades, e)
      {
        ZeroEntryExcludesHistory(cfg, m, start, Run(cfg, m, start).trades, trades, e);
      }
    }
  }

  // ---------------------------------------------------------------- consequences

  // A price pulled towards the open, by all but a fraction of the way.
  ghost function Pulled(open: real, price: real, f: real): real {
    open + (price - open) * f
  }

  // The range of bar i that the runner looks at: all of it, or with the queue's lag the
  // range pulled towards the open by the protected fraction, or nothing.
  datatype Look = Blind | Range(high: real, low: real)

  ghost function LookAt(m: Market, i: nat): Look
    requires m.Valid() && i < |m.bars|
  {
    var bar := m.bars[i];
    match m.checker
    case Plain => Range(bar.high, bar.low)
    case Lagged(f) =>
      if f[i] >= 1.0 then Range(bar.high, bar.low)
      else if f[i] <= 0.0 then Blind
      else Range(Pulled(bar.open, bar.high, f[i]), Pulled(bar.open, bar.low, f[i]))
  }

  // What the runner sees reaches the stop: falling for a long position, rising for a short.
  ghost predicate StopReached(pos: Position, seen: Look) {
    && seen.Range? && pos.slPrice.Some?
    && (pos.side == Buy ==> seen.low <= pos.slPrice.value)
    && (pos.side == Sell ==> seen.high >= pos.slPrice.value)
  }

  // ... or the target: rising for a long position, falling for a short.
  ghost predicate TargetReached(pos: Position, seen: Look) {
    && seen.Range? && pos.tpPrice.Some?
    && (pos.side == Buy ==> seen.high >= pos.tpPrice.value)
    && (pos.side == Sell ==> seen.low <= pos.tpPrice.value)
  }

  // The check finds the stop when it is reached, else the target when that is, else nothing.
  lemma HitIff(m: Market, pos: Position, i: nat)
    requires m.Valid() && i < |m.bars|
    ensures var seen, hit := LookAt(m, i), HitAt(m.checker, pos, m.bars[i], i);
            && (StopReached(pos, seen) ==> hit == Some(Hit(SL, pos.slPrice.value)))
            && (!StopReached(pos, seen) && TargetReached(pos, seen) ==> hit == Some(Hit(TP, pos.tpPrice.value)))
            && (!StopReached(pos, seen) && !TargetReached(pos, seen) ==> hit == None)
  {
  }

  // First touch, for either runner: before the cause of its exit neither level was reached
  // on any bar of the trade and no signal opposed it; a bar that reaches both exits at the
  // stop; and the bar of a signal exit reaches neither.
  lemma FirstTouch(cfg: Config, m: Market, start: nat, t: Trade, i: nat)
    requires m.Valid() && |m.bars| > 0 && Run(cfg, m, start).Ran?
    requires t in Run(cfg, m, start).trades
    requires t.pos.entryBar <= i && i < |m.bars|
    ensures var cause := if t.reason == SIGNAL then t.exitBar - 1 else t.exitBar;
            var stop, target := StopReached(t.pos, LookAt(m, i)), TargetReached(t.pos, LookAt(m, i));
            var opposed := m.signals[i].Go? && m.signals[i].side != t.pos.side;
            && (i < cause ==> !stop && !target && !opposed)
            && (i == cause && t.reason == SL ==> stop && t.pos.slPrice == Some(t.exitPrice))
            && (i == cause && t.reason == TP ==> target && !stop && t.pos.tpPrice == Some(t.exitPrice))
            && (i == cause && t.reason == SIGNAL ==> !stop && !target && opposed)
  {
    RunIsHistory(cfg, m, start);
    var trades := Run(cfg, m, start).trades;
    var j :| 0 <= j < |trades| && trades[j] == t;
    assert ExplainedAt(cfg, m, start, trades, j);
    HitIff(m, t.pos, i);
    if i < CauseBar(t) {
      assert QuietAt(m, t.pos, i);
    }
  }

  lemma {:induction false} ExitBarsGrow(cfg: Config, m: Market, start: nat, trades: seq<Trade>, j: nat, k: nat)
    requires m.Valid() && Explained(cfg, m, start, trades) && j < k < |trades|
    ensures trades[j].exitBar < trades[k].pos.entryBar
    decreases k
  {
    assert ExplainedAt(cfg, m, start, trades, k);
    assert trades[..k][k - 1] == trades[k - 1];
    if j == k - 1 {
    } else {
      ExitBarsGrow(cfg, m, start, trades, j, k - 1);
      assert ExplainedAt(cfg, m, start, trades, k - 1);
    }
  }

  // Every trade is entered no later than it exits and not before the start; trades never
  // overlap; and an END_OF_DATA trade can only be the last.
  lemma TradesNeverOverlap(cfg: Config, m: Market, start: nat, j: nat, k: nat)
    requires m.Valid() && |m.bars| > 0 && Run(cfg, m, start).Ran?
    requires j <= k < |Run(cfg, m, start).trades|
    ensures var trades := Run(cfg, m, start).trades;
            && start < trades[k].pos.entryBar <= trades[k].exitBar < |m.bars|
            && (j < k ==> trades[j].exitBar < trades[k].pos.entryBar && trades[j].reason != END_OF_DATA)
  {
    RunIsHistory(cfg, m, start);
    var trades := Run(cfg, m, start).trades;
    assert ExplainedAt(cfg, m, start, trades, j) && ExplainedAt(cfg, m, start, trades, k);
    if j < k {
      ExitBarsGrow(cfg, m, start, trades, j, k);
    }
    if 0 < k {
      ExitBarsGrow(cfg, m, start, trades, 0, k);
      assert ExplainedAt(cfg, m, start, trades, 0);
    }
  }
}
