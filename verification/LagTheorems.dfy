/** The lagged runner: how the queue lag changes exits, when it changes nothing, and from
    which bars on later data can change what it does. */
module LagTheorems {
  import opened Wrappers
  import opened RealMath
  import opened Trading
  import opened Backtest
  import opened BacktestHistory
  import opened BacktestTheorems

  // ------------------------------------------------------- plain and lagged runner

  lemma FractionAtMostOne(queuePosition: nat, stopGap: real, limitGap: real, barSeconds: real)
    requires barSeconds > 0.0 && stopGap >= 0.0 && limitGap >= 0.0
    ensures 0.0 <= ProtectedFraction(queuePosition, stopGap, limitGap, barSeconds) <= 1.0
    ensures queuePosition == 0 ==> ProtectedFraction(queuePosition, stopGap, limitGap, barSeconds) == 1.0
    ensures ProtectedFraction(queuePosition, stopGap, limitGap, barSeconds) == 0.0
            <==> queuePosition as real * (stopGap + limitGap) >= barSeconds
  {
    var lag := queuePosition as real * (stopGap + limitGap);
    assert lag >= 0.0;
    var share := lag / barSeconds;
    assert share * barSeconds == lag;
    assert share >= 0.0;
    assert share >= 1.0 ==> lag >= barSeconds;
    assert share < 1.0 ==> lag < barSeconds;
  }

  // In seconds: what is protected of a bar is its length less the queue's lag, if anything.
  lemma FractionIs(queuePosition: nat, stopGap: real, limitGap: real, barSeconds: real)
    requires barSeconds > 0.0
    ensures var left := barSeconds - queuePosition as real * (stopGap + limitGap);
            ProtectedFraction(queuePosition, stopGap, limitGap, barSeconds) * barSeconds
            == if left < 0.0 then 0.0 else left
  {
    var lag := queuePosition as real * (stopGap + limitGap);
    var share := lag / barSeconds;
    assert share * barSeconds == lag;
    assert (1.0 - share) * barSeconds == barSeconds - lag;
    if 1.0 - share < 0.0 {
      MulMono(1.0, share, barSeconds);
    } else {
      MulMono(share, 1.0, barSeconds);
    }
  }

  // The peers counted on a bar of the run: those with a signal for every bar of it, whose
  // inference did not raise from the start up to this bar, and which buy on it.
  ghost predicate CountedAt(p: Peer, start: nat, i: nat, n: nat) {
    && p.Available? && n <= |p.signals| && i < n && p.signals[i] == Go(Buy)
    && forall j :: start <= j < i ==> p.signals[j] != Raises
  }

  lemma CountedIffBuys(p: Peer, start: nat, i: nat, n: nat)
    requires start <= i
    ensures CountedAt(p, start, i, n) <==> BuysAt(p, start, i, n)
  {
  }

  // The numbers of the peers counted.
  ghost function Counted(peers: seq<Peer>, start: nat, i: nat, n: nat): set<nat> {
    set k: nat | k < |peers| && CountedAt(peers[k], start, i, n)
  }

  lemma {:induction false} PeersBuyingIs(peers: seq<Peer>, start: nat, i: nat, n: nat)
    requires start <= i
    ensures PeersBuying(peers, start, i, n) == |Counted(peers, start, i, n)|
  {
    if peers == [] {
      assert Counted(peers, start, i, n) == {};
    } else {
      var last := |peers| - 1;
      PeersBuyingIs(peers[..last], start, i, n);
      CountedIffBuys(peers[last], start, i, n);
      CountedPush(peers[..last], peers[last], start, i, n);
      assert peers == peers[..last] + [peers[last]];
    }
  }

  lemma CountedPush(peers: seq<Peer>, p: Peer, start: nat, i: nat, n: nat)
    ensures |Counted(peers + [p], start, i, n)|
            == |Counted(peers, start, i, n)| + (if CountedAt(p, start, i, n) then 1 else 0)
  {
    assert Counted(peers + [p], start, i, n)
        == Counted(peers, start, i, n) + (if CountedAt(p, start, i, n) then {|peers|} else {});
  }

  // The fraction the lagged runner works with on a bar, and the signal: the model sees the
  // same window as in the plain runner, without a VWAP column.
  lemma LagOfBar(cfg: Config, bars: seq<Bar>, window: nat, infer: seq<Row> -> Signal, peers: seq<Peer>,
                 barSeconds: real, i: nat)
    requires barSeconds > 0.0 && window + 50 <= i < |bars|
    ensures var m := LagMarket(cfg, bars, window, infer, peers, barSeconds);
            var ahead := |Counted(peers, window + 50, i, |bars|)|;
            var left := barSeconds - ahead as real * (cfg.stopGap + cfg.limitGap);
            && m.checker.Lagged?
            && m.checker.fractions[i] * barSeconds == (if left < 0.0 then 0.0 else left)
            && m.signals[i] == infer(Rows(bars, false)[i - window - 50..i + 1])
  {
    assert WindowAt(Rows(bars, false), WarmupBars(window), i) == Rows(bars, false)[i - window - 50..i + 1];
    PeersBuyingIs(peers, window + 50, i, |bars|);
    FractionIs(PeersBuying(peers, window + 50, i, |bars|), cfg.stopGap, cfg.limitGap, barSeconds);
  }

  // Too short a series is no data; otherwise the walk starts at bar window + 50.
  lemma LagRunStarts(cfg: Config, bars: seq<Bar>, window: nat, infer: seq<Row> -> Signal, peers: seq<Peer>,
                     barSeconds: real)
    requires barSeconds > 0.0
    ensures LagRun(cfg, bars, window, infer, peers, barSeconds) ==
            if |bars| < window + 2 then NoData
            else Run(cfg, LagMarket(cfg, bars, window, infer, peers, barSeconds), window + 50)
    ensures window + 2 <= |bars| < window + 52 ==>
              LagRun(cfg, bars, window, infer, peers, barSeconds) == Ran([], cfg.initialEquity)
  {
  }

  // A deeper queue position protects no more of the bar.
  lemma FractionAntitone(shallow: nat, deep: nat, stopGap: real, limitGap: real, barSeconds: real)
    requires barSeconds > 0.0 && stopGap >= 0.0 && limitGap >= 0.0 && shallow <= deep
    ensures ProtectedFraction(deep, stopGap, limitGap, barSeconds)
            <= ProtectedFraction(shallow, stopGap, limitGap, barSeconds)
  {
    var gap := stopGap + limitGap;
    assert shallow as real * gap <= deep as real * gap;
    DivMono(shallow as real * gap, deep as real * gap, barSeconds);
  }

  // Scaling pulls high and low towards the open, further for a smaller fraction.
  lemma ScaledInside(open: real, high: real, low: real, f: real, g: real)
    requires low <= open <= high && 0.0 <= f <= g <= 1.0
    ensures Scaled(open, high, f) <= Scaled(open, high, g) <= high
    ensures low <= Scaled(open, low, g) <= Scaled(open, low, f)
  {
    assert (high - open) * f <= (high - open) * g && (high - open) * g <= (high - open) * 1.0;
    assert (low - open) * g <= (low - open) * f && (low - open) * 1.0 <= (low - open) * g;
  }

  // Less protection never turns a bar without a hit into a hit.
  lemma LessProtectionFewerHits(pos: Position, open: real, high: real, low: real, f: real, g: real)
    requires low <= open <= high && 0.0 <= f <= g <= 1.0
    ensures CheckSlTpWithLag(pos, open, high, low, f).Some? ==> CheckSlTpWithLag(pos, open, high, low, g).Some?
  {
    ScaledInside(open, high, low, f, g);
  }

  // The same bars and signals under two lags of which the first protects at least as much
  // of every bar on which a position can be checked.
  ghost predicate DeeperThan(shallow: Market, deep: Market, start: nat) {
    && shallow.Valid() && deep.Valid()
    && shallow.bars == deep.bars && shallow.signals == deep.signals
    && shallow.checker.Lagged? && deep.checker.Lagged?
    && forall i :: start < i < |shallow.bars| - 1 ==>
         && shallow.bars[i].low <= shallow.bars[i].open <= shallow.bars[i].high
         && 0.0 <= deep.checker.fractions[i] <= shallow.checker.fractions[i] <= 1.0
  }

  // From the same entry and signals, a stop or target exit is never earlier for queueing
  // deeper: if the deeper run exits at bar x, the shallower one has exited by x.
  lemma LagNeverEarlier(shallow: Market, deep: Market, start: nat, pos: Position, x: nat)
    requires DeeperThan(shallow, deep, start) && start < pos.entryBar <= x < |deep.bars| - 1
    requires Quiet(deep, pos, pos.entryBar, x) && HitAt(deep.checker, pos, deep.bars[x], x).Some?
    ensures exists y: nat :: pos.entryBar <= y <= x
              && Quiet(shallow, pos, pos.entryBar, y) && HitAt(shallow.checker, pos, shallow.bars[y], y).Some?
  {
    LessProtectionFewerHits(pos, deep.bars[x].open, deep.bars[x].high, deep.bars[x].low,
                            deep.checker.fractions[x], shallow.checker.fractions[x]);
    var y := pos.entryBar;
    while HitAt(shallow.checker, pos, shallow.bars[y], y).None?
      invariant pos.entryBar <= y <= x
      invariant Quiet(shallow, pos, pos.entryBar, y)
      decreases x - y
    {
      assert y < x;
      assert QuietAt(deep, pos, y);
      y := y + 1;
    }
  }

  // The lagged runner's market for more peers buying is the deeper one.
  lemma MorePeersDeeper(cfg: Config, bars: seq<Bar>, window: nat, infer: seq<Row> -> Signal,
                        few: seq<Peer>, many: seq<Peer>, barSeconds: real)
    requires barSeconds > 0.0 && cfg.stopGap >= 0.0 && cfg.limitGap >= 0.0
    requires forall i :: WarmupBars(window) < i < |bars| - 1 ==>
               && bars[i].low <= bars[i].open <= bars[i].high
               && PeersBuying(few, WarmupBars(window), i, |bars|) <= PeersBuying(many, WarmupBars(window), i, |bars|)
    ensures DeeperThan(LagMarket(cfg, bars, window, infer, few, barSeconds),
                       LagMarket(cfg, bars, window, infer, many, barSeconds), WarmupBars(window))
  {
    var start, n := WarmupBars(window), |bars|;
    forall i | start < i < n - 1
      ensures 0.0 <= Fractions(cfg, many, start, n, barSeconds)[i]
                  <= Fractions(cfg, few, start, n, barSeconds)[i] <= 1.0
    {
      var shallow, deep := PeersBuying(few, start, i, n), PeersBuying(many, start, i, n);
      FractionAntitone(shallow, deep, cfg.stopGap, cfg.limitGap, barSeconds);
      FractionAtMostOne(shallow, cfg.stopGap, cfg.limitGap, barSeconds);
      FractionAtMostOne(deep, cfg.stopGap, cfg.limitGap, barSeconds);
    }
  }

  // Full protection on every bar on which a position can be checked is no lag at all.
  lemma {:induction false} FullProtectionWalk(cfg: Config, m: Market, start: nat, end: nat)
    requires m.Valid() && end < |m.bars| && m.checker.Lagged?
    requires forall i :: start < i < end ==> m.checker.fractions[i] >= 1.0
    ensures Walk(cfg, m, start, end) == Walk(cfg, m.(checker := Plain), start, end)
    decreases end
  {
    if end <= start {
    } else {
      FullProtectionWalk(cfg, m, start, end - 1);
    }
  }

  lemma HeadOfQueueProtectsAll(cfg: Config, peers: seq<Peer>, start: nat, n: nat, barSeconds: real, i: nat)
    requires barSeconds > 0.0 && i < n && PeersBuying(peers, start, i, n) == 0
    ensures Fractions(cfg, peers, start, n, barSeconds)[i] == 1.0
  {
    assert 0 as real * (cfg.stopGap + cfg.limitGap) / barSeconds == 0.0;
  }

  // With no peer buying on any bar on which a position can be checked, the lagged runner
  // makes exactly the trades of the plain runner, for a model that does not use the VWAP
  // column.
  lemma NoPeersNoLag(cfg: Config, bars: seq<Bar>, window: nat, infer: seq<Row> -> Signal, peers: seq<Peer>,
                     barSeconds: real)
    requires barSeconds > 0.0
    requires forall i :: WarmupBars(window) < i < |bars| - 1 ==> PeersBuying(peers, WarmupBars(window), i, |bars|) == 0
    ensures LagRun(cfg, bars, window, infer, peers, barSeconds) == PlainRun(cfg, bars, window, false, infer)
  {
    if |bars| >= window + 2 {
      var start, m := WarmupBars(window), LagMarket(cfg, bars, window, infer, peers, barSeconds);
      assert m.(checker := Plain) == PlainMarket(bars, window, false, infer);
      forall i | start < i < |bars| - 1
        ensures m.checker.fractions[i] >= 1.0
      {
        HeadOfQueueProtectsAll(cfg, peers, start, |bars|, barSeconds, i);
      }
      PlainRunIsLagged(cfg, m, start);
    }
  }

  lemma PlainRunIsLagged(cfg: Config, m: Market, start: nat)
    requires m.Valid() && |m.bars| > 0 && m.checker.Lagged?
    requires forall i :: start < i < |m.bars| - 1 ==> m.checker.fractions[i] >= 1.0
    ensures Run(cfg, m, start) == Run(cfg, m.(checker := Plain), start)
  {
    FullProtectionWalk(cfg, m, start, |m.bars| - 1);
  }

  // ------------------------------------------------- look-ahead of the lagged runner

  // Two runs, over na and nb bars with their peers, count the same peers buying on every
  // bar through k on which a position can be checked.
  ghost predicate CountsAgree(pa: seq<Peer>, pb: seq<Peer>, start: nat, na: nat, nb: nat, k: nat) {
    forall i :: start < i <= k ==> PeersBuying(pa, start, i, na) == PeersBuying(pb, start, i, nb)
  }

  // No look-ahead, with lag: two series that agree on bars 0 .. k and both continue have
  // completed the same trades by bar k, for any inference function, provided their peers'
  // counts agree through k.
  lemma LagNoLookAhead(cfg: Config, a: seq<Bar>, b: seq<Bar>, window: nat, infer: seq<Row> -> Signal,
                       pa: seq<Peer>, pb: seq<Peer>, barSeconds: real, k: nat)
    requires barSeconds > 0.0 && k + 1 < |a| && k + 1 < |b| && a[..k + 1] == b[..k + 1]
    requires CountsAgree(pa, pb, WarmupBars(window), |a|, |b|, k)
    requires LagRun(cfg, a, window, infer, pa, barSeconds).Ran? && LagRun(cfg, b, window, infer, pb, barSeconds).Ran?
    ensures Early(LagRun(cfg, a, window, infer, pa, barSeconds).trades, k)
         == Early(LagRun(cfg, b, window, infer, pb, barSeconds).trades, k)
  {
    var ma, mb := LagMarket(cfg, a, window, infer, pa, barSeconds), LagMarket(cfg, b, window, infer, pb, barSeconds);
    SignalsSame(a, b, false, WarmupBars(window), k, infer);
    forall i | 0 <= i <= k
      ensures ma.bars[i] == mb.bars[i]
    {
      assert a[..k + 1][i] == b[..k + 1][i];
    }
    MarketsSameEarly(cfg, ma, mb, WarmupBars(window), k);
  }

  // A peer is long enough for both runs or for neither, and if it counts its signals agree
  // from the start through bar k.
  ghost predicate PeerAgrees(p: Peer, q: Peer, start: nat, na: nat, nb: nat, k: nat)
    requires k < na && k < nb
  {
    && (LongEnough(p, na) <==> LongEnough(q, nb))
    && (LongEnough(p, na) ==> forall i :: start <= i <= k ==> p.signals[i] == q.signals[i])
  }

  // Then the counts agree.
  lemma {:induction false} PeersAgreeCounts(pa: seq<Peer>, pb: seq<Peer>, start: nat, na: nat, nb: nat, k: nat)
    requires k < na && k < nb && |pa| == |pb|
    requires forall j :: 0 <= j < |pa| ==> PeerAgrees(pa[j], pb[j], start, na, nb, k)
    ensures CountsAgree(pa, pb, start, na, nb, k)
  {
    if pa == [] {
    } else {
      var n := |pa| - 1;
      PeersAgreeCounts(pa[..n], pb[..n], start, na, nb, k);
      forall i | start < i <= k
        ensures BuysAt(pa[n], start, i, na) == BuysAt(pb[n], start, i, nb)
      {
        PeerAgreesBuys(pa[n], pb[n], start, na, nb, k, i);
      }
    }
  }

  lemma PeerAgreesBuys(p: Peer, q: Peer, start: nat, na: nat, nb: nat, k: nat, i: nat)
    requires k < na && k < nb && PeerAgrees(p, q, start, na, nb, k) && start <= i <= k
    ensures BuysAt(p, start, i, na) == BuysAt(q, start, i, nb)
  {
    if LongEnough(p, na) {
      assert forall j :: start <= j <= i ==> p.signals[j] == q.signals[j];
    }
  }

  // Without the provision later data does change the past: one more bar, and a peer that
  // buys on every bar counts on none.
  lemma LongerRunDropsPeer(start: nat, i: nat, n: nat)
    requires start <= i < n
    ensures var p := Available(seq(n, _ => Go(Buy)));
            PeersBuying([p], start, i, n) == 1 && PeersBuying([p], start, i, n + 1) == 0
  {
    var p := Available(seq(n, _ => Go(Buy)));
    assert [p][..0] == [];
    assert BuysAt(p, start, i, n) && !BuysAt(p, start, i, n + 1);
  }

  // The provision is exact: wherever the counts differ, some configuration, series and
  // inference function make the two runs part. It takes a position opened on the bar where
  // they differ, whose stop lies just inside the range that the smaller count protects.

  // A bar that says which one it is, and falls by a given depth.
  function DippingBar(i: nat, depth: real): Bar {
    Bar(100.0, 100.0, 100.0 - depth, 100.0, 1.0, [i as real])
  }

  function Dipping(n: nat, depth: real): (bars: seq<Bar>)
    ensures |bars| == n
  {
    seq(n, i requires 0 <= i < n => DippingBar(i, depth))
  }

  // Buys on seeing one bar, and holds otherwise.
  function BuyOn(x: nat): seq<Row> -> Signal {
    (w: seq<Row>) => if |w| > 0 && w[|w| - 1].bar.extra == [x as real] then Go(Buy) else Hold
  }

  // One place in the queue costs the share 1 / (most + 1) of a bar.
  function DipConfig(most: nat, barSeconds: real): Config {
    Config(0, 0.0, 1000.0, 1.0, Some(1.0), None, barSeconds / (most + 1) as real, 0.0)
  }

  lemma DipFraction(count: nat, most: nat, barSeconds: real)
    requires barSeconds > 0.0 && count <= most
    ensures var cfg := DipConfig(most, barSeconds);
            ProtectedFraction(count, cfg.stopGap, cfg.limitGap, barSeconds) * (most + 1) as real
            == (most + 1 - count) as real
  {
    var places, gap := (most + 1) as real, barSeconds / (most + 1) as real;
    assert gap * places == barSeconds;
    var share := count as real * gap / barSeconds;
    assert share * barSeconds == count as real * gap;
    assert (share * places - count as real) * barSeconds == share * barSeconds * places - count as real * barSeconds;
    assert share * barSeconds * places == count as real * (gap * places);
    ZeroProduct(share * places - count as real, barSeconds);
    assert (1.0 - share) * places == places - count as real;
    if share > 1.0 {
      MulMono(1.0, share, places);
      assert false;
    }
  }

  // The stop one percent down is touched by the protected part of the dip exactly when
  // the count is not the greatest.
  lemma DipHitIff(pos: Position, count: nat, most: nat, barSeconds: real, i: nat)
    requires barSeconds > 0.0 && count <= most && most > 0
    requires pos.side == Buy && pos.slPrice == Some(99.0) && pos.tpPrice == None
    ensures var cfg := DipConfig(most, barSeconds);
            var f := ProtectedFraction(count, cfg.stopGap, cfg.limitGap, barSeconds);
            var bar := DippingBar(i, (most + 1) as real / 2.0);
            CheckSlTpWithLag(pos, bar.open, bar.high, bar.low, f) == if count < most then Some(Hit(SL, 99.0)) else None
  {
    var cfg := DipConfig(most, barSeconds);
    var f := ProtectedFraction(count, cfg.stopGap, cfg.limitGap, barSeconds);
    var bar := DippingBar(i, (most + 1) as real / 2.0);
    DipFraction(count, most, barSeconds);
    assert (bar.low - bar.open) * f == -(f * (most + 1) as real) / 2.0;
    assert Scaled(bar.open, bar.low, f) == 100.0 - (most + 1 - count) as real / 2.0;
  }

  lemma {:induction false} HoldingWalk(cfg: Config, m: Market, start: nat, end: nat)
    requires m.Valid() && end < |m.bars| && forall i :: start <= i < end ==> m.signals[i].Hold?
    ensures Walk(cfg, m, start, end) == Some(Begin(cfg))
    decreases end
  {
    if end <= start {
    } else {
      HoldingWalk(cfg, m, start, end - 1);
    }
  }

  function DipBars(most: nat, n: nat): (bars: seq<Bar>)
    ensures |bars| == n
  {
    Dipping(n, (most + 1) as real / 2.0)
  }

  function DipMarket(most: nat, n: nat, window: nat, signalBar: nat, peers: seq<Peer>, barSeconds: real): (m: Market)
    requires barSeconds > 0.0
    ensures m.Valid() && |m.bars| == n
  {
    LagMarket(DipConfig(most, barSeconds), DipBars(most, n), window, BuyOn(signalBar), peers, barSeconds)
  }

  lemma DipSignals(most: nat, n: nat, window: nat, signalBar: nat, peers: seq<Peer>, barSeconds: real, i: nat)
    requires barSeconds > 0.0 && i < n
    ensures DipMarket(most, n, window, signalBar, peers, barSeconds).signals[i]
            == if i == signalBar then Go(Buy) else Hold
  {
    var rows := Rows(DipBars(most, n), false);
    var w := WindowAt(rows, WarmupBars(window), i);
    assert w[|w| - 1] == rows[i];
    assert rows[i].bar == DippingBar(i, (most + 1) as real / 2.0);
    assert rows[i].bar.extra[0] == i as real;
    assert rows[i].bar.extra == [signalBar as real] <==> i == signalBar by {
      assert [signalBar as real][0] == signalBar as real;
    }
  }

  // The run has completed a trade by the bar after the signal exactly when the count
  // there is not the greatest.
  lemma DipCompleted(most: nat, n: nat, window: nat, signalBar: nat, peers: seq<Peer>, barSeconds: real)
    requires barSeconds > 0.0 && most > 0 && WarmupBars(window) <= signalBar && signalBar + 2 < n
    requires PeersBuying(peers, WarmupBars(window), signalBar + 1, n) <= most
    ensures var m := DipMarket(most, n, window, signalBar, peers, barSeconds);
            var x := signalBar + 1;
            |Early(CompletedBy(DipConfig(most, barSeconds), m, WarmupBars(window), x), x)|
            == if PeersBuying(peers, WarmupBars(window), x, n) < most then 1 else 0
  {
    var cfg, start := DipConfig(most, barSeconds), WarmupBars(window);
    var m := DipMarket(most, n, window, signalBar, peers, barSeconds);
    var x, count := signalBar + 1, PeersBuying(peers, start, signalBar + 1, n);
    forall i | start <= i <= signalBar
      ensures m.signals[i] == if i == signalBar then Go(Buy) else Hold
    {
      DipSignals(most, n, window, signalBar, peers, barSeconds, i);
    }
    HoldingWalk(cfg, m, start, signalBar);
    var pos := OpenPosition(cfg, cfg.initialEquity, Buy, 100.0, x);
    assert Walk(cfg, m, start, x) == Some(Begin(cfg).(position := Some(pos)));
    DipHitIff(pos, count, most, barSeconds, x);
    var trades := CompletedBy(cfg, m, start, x);
    if count < most {
      var t := Trade(pos, 99.0, x, Realized(cfg, pos, 99.0), SL);
      assert trades == [] + [t];
      EarlyPush([], t, x);
    } else {
      assert trades == [];
    }
  }

  lemma DipRan(cfg: Config, m: Market, most: nat, window: nat, signalBar: nat, peers: seq<Peer>, barSeconds: real)
    requires barSeconds > 0.0 && m.Valid() && |m.bars| > 0
    requires cfg == DipConfig(most, barSeconds) && m == DipMarket(most, |m.bars|, window, signalBar, peers, barSeconds)
    ensures Run(cfg, m, WarmupBars(window)).Ran?
  {
    DipOpens(most, |m.bars|);
    forall i | 0 <= i < |m.bars|
      ensures !m.signals[i].Raises?
    {
      DipSignals(most, |m.bars|, window, signalBar, peers, barSeconds, i);
    }
    assert !RaisesWithin(m, WarmupBars(window), |m.bars| - 1);
    WalkCompletes(cfg, m, WarmupBars(window), |m.bars| - 1);
  }

  lemma DipOpens(most: nat, n: nat)
    ensures forall b <- DipBars(most, n) :: b.open == 100.0
  {
  }

  function DipRun(most: nat, n: nat, window: nat, signalBar: nat, peers: seq<Peer>, barSeconds: real): Outcome
    requires barSeconds > 0.0
  {
    LagRun(DipConfig(most, barSeconds), DipBars(most, n), window, BuyOn(signalBar), peers, barSeconds)
  }

  lemma DipRunIs(most: nat, n: nat, window: nat, signalBar: nat, peers: seq<Peer>, barSeconds: real)
    returns (cfg: Config, m: Market)
    requires barSeconds > 0.0 && n >= window + 2
    ensures cfg == DipConfig(most, barSeconds) && m == DipMarket(most, n, window, signalBar, peers, barSeconds)
    ensures m.Valid() && |m.bars| == n
    ensures DipRun(most, n, window, signalBar, peers, barSeconds) == Run(cfg, m, WarmupBars(window))
  {
    cfg, m := DipConfig(most, barSeconds), DipMarket(most, n, window, signalBar, peers, barSeconds);
  }

  lemma DipRunEarly(most: nat, n: nat, window: nat, signalBar: nat, peers: seq<Peer>, barSeconds: real)
    requires barSeconds > 0.0 && most > 0 && WarmupBars(window) <= signalBar && signalBar + 2 < n
    requires PeersBuying(peers, WarmupBars(window), signalBar + 1, n) <= most
    ensures var r := DipRun(most, n, window, signalBar, peers, barSeconds);
            && r.Ran?
            && |Early(r.trades, signalBar + 1)|
               == if PeersBuying(peers, WarmupBars(window), signalBar + 1, n) < most then 1 else 0
  {
    var cfg, m := DipRunIs(most, n, window, signalBar, peers, barSeconds);
    DipRan(cfg, m, most, window, signalBar, peers, barSeconds);
    RunEarly(cfg, m, WarmupBars(window), signalBar + 1);
    DipCompleted(most, n, window, signalBar, peers, barSeconds);
  }

  lemma {:induction false} EarlyOfEarly(trades: seq<Trade>, x: nat, k: nat)
    requires x <= k
    ensures Early(Early(trades, k), x) == Early(trades, x)
  {
    if trades == [] {
    } else {
      var n := |trades| - 1;
      EarlyOfEarly(trades[..n], x, k);
      var early := Early(trades[..n], k);
      if trades[n].exitBar <= k && trades[n].reason != END_OF_DATA {
        assert Early(trades, k) == early + [trades[n]];
        EarlyPush(early, trades[n], x);
      } else {
        assert Early(trades, k) == early + [] == early;
        assert Early(trades, x) == Early(trades[..n], x) + [] == Early(trades[..n], x);
      }
    }
  }

  // No configuration, pair of series or inference function lets the two runs part by bar k.
  ghost predicate NeverPart(pa: seq<Peer>, pb: seq<Peer>, window: nat, na: nat, nb: nat, barSeconds: real, k: nat)
    requires barSeconds > 0.0 && k + 1 < na && k + 1 < nb
  {
    forall cfg, infer, a, b | |a| == na && |b| == nb && a[..k + 1] == b[..k + 1] ::
      Alike(LagRun(cfg, a, window, infer, pa, barSeconds), LagRun(cfg, b, window, infer, pb, barSeconds), k)
  }

  // Two runs that complete have completed the same trades by bar k.
  ghost predicate Alike(a: Outcome, b: Outcome, k: nat) {
    a.Ran? && b.Ran? ==> Early(a.trades, k) == Early(b.trades, k)
  }

  lemma DipsPart(pa: seq<Peer>, pb: seq<Peer>, window: nat, na: nat, nb: nat, barSeconds: real, k: nat,
                 signalBar: nat, most: nat)
    requires barSeconds > 0.0 && k + 1 < na && k + 1 < nb && WarmupBars(window) <= signalBar < k
    requires var ca := PeersBuying(pa, WarmupBars(window), signalBar + 1, na);
             var cb := PeersBuying(pb, WarmupBars(window), signalBar + 1, nb);
             ca <= most && cb <= most && (ca == most) != (cb == most)
    ensures !Alike(DipRun(most, na, window, signalBar, pa, barSeconds),
                   DipRun(most, nb, window, signalBar, pb, barSeconds), k)
  {
    DipRunEarly(most, na, window, signalBar, pa, barSeconds);
    DipRunEarly(most, nb, window, signalBar, pb, barSeconds);
    PartBy(DipRun(most, na, window, signalBar, pa, barSeconds),
           DipRun(most, nb, window, signalBar, pb, barSeconds), signalBar + 1, k);
  }

  // Runs that differ by bar x still differ by bar k.
  lemma PartBy(a: Outcome, b: Outcome, x: nat, k: nat)
    requires a.Ran? && b.Ran? && x <= k && |Early(a.trades, x)| != |Early(b.trades, x)|
    ensures !Alike(a, b, k)
  {
    EarlyOfEarly(a.trades, x, k);
    EarlyOfEarly(b.trades, x, k);
  }

  lemma DipBarsAgree(most: nat, na: nat, nb: nat, k: nat)
    requires k < na && k < nb
    ensures DipBars(most, na)[..k + 1] == DipBars(most, nb)[..k + 1]
  {
  }

  lemma DifferentCountsPart(pa: seq<Peer>, pb: seq<Peer>, window: nat, na: nat, nb: nat, barSeconds: real, k: nat,
                            x: nat)
    requires barSeconds > 0.0 && k + 1 < na && k + 1 < nb && WarmupBars(window) < x <= k
    requires PeersBuying(pa, WarmupBars(window), x, na) != PeersBuying(pb, WarmupBars(window), x, nb)
    ensures !NeverPart(pa, pb, window, na, nb, barSeconds, k)
  {
    var ca, cb := PeersBuying(pa, WarmupBars(window), x, na), PeersBuying(pb, WarmupBars(window), x, nb);
    var most := if ca < cb then cb else ca;
    DipsPart(pa, pb, window, na, nb, barSeconds, k, x - 1, most);
    DipBarsAgree(most, na, nb, k);
    var cfg, infer, a, b := DipConfig(most, barSeconds), BuyOn(x - 1), DipBars(most, na), DipBars(most, nb);
    assert !Alike(LagRun(cfg, a, window, infer, pa, barSeconds), LagRun(cfg, b, window, infer, pb, barSeconds), k);
  }

  // So the lagged runner does not look ahead if and only if its peers' counts agree
  // through bar k.
  lemma LagLookAheadIff(pa: seq<Peer>, pb: seq<Peer>, window: nat, na: nat, nb: nat, barSeconds: real, k: nat)
    requires barSeconds > 0.0 && k + 1 < na && k + 1 < nb
    ensures NeverPart(pa, pb, window, na, nb, barSeconds, k) <==> CountsAgree(pa, pb, WarmupBars(window), na, nb, k)
  {
    if CountsAgree(pa, pb, WarmupBars(window), na, nb, k) {
      forall cfg, infer, a, b | |a| == na && |b| == nb && a[..k + 1] == b[..k + 1]
        ensures Alike(LagRun(cfg, a, window, infer, pa, barSeconds), LagRun(cfg, b, window, infer, pb, barSeconds), k)
      {
        if LagRun(cfg, a, window, infer, pa, barSeconds).Ran? && LagRun(cfg, b, window, infer, pb, barSeconds).Ran? {
          LagNoLookAhead(cfg, a, b, window, infer, pa, pb, barSeconds, k);
        }
      }
    } else {
      var x :| WarmupBars(window) < x <= k
        && PeersBuying(pa, WarmupBars(window), x, na) != PeersBuying(pb, WarmupBars(window), x, nb);
      DifferentCountsPart(pa, pb, window, na, nb, barSeconds, k, x);
    }
  }
}
