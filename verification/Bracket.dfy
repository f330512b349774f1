/** The bracket of a filled BUY: two protective legs at the exchange, placed by
    _process_one (alphaTrade/broker/async_broker.py) and then watched by monitor_oco
    (alphaTrade/broker/oco_monitor.py). The exchange moves the legs on its own between
    any two steps of the program; how it does so, and which requests fail, is an input. */
module Bracket {
  import opened Wrappers
  import opened Trading
  import opened OrderQueue
  import opened Positions
  import Performance

  // ---------------------------------------------------------------- the exchange

  // A filled leg may or may not report a price.
  datatype Leg = Absent | Live | Filled(fillPrice: Option<real>) | Cancelled | Rejected

  datatype Legs = Legs(stop: Leg, limit: Leg)

  predicate Terminal(l: Leg) {
    l.Filled? || l.Cancelled? || l.Rejected?
  }

  // Only a live leg moves, and only to a terminal state.
  function Moved(l: Leg, to: Leg): Leg {
    if l.Live? && Terminal(to) then to else l
  }

  // What the exchange would like to do with each leg before the program's next step.
  datatype Drift = Drift(stopTo: Leg, limitTo: Leg)

  function Drifted(legs: Legs, d: Drift): Legs {
    Legs(Moved(legs.stop, d.stopTo), Moved(legs.limit, d.limitTo))
  }

  // A cancel request on a live leg takes effect, or fails; on any other leg it fails.
  function CancelLeg(l: Leg, takes: bool): Leg {
    if l.Live? && takes then Cancelled else l
  }

  predicate NoneLive(legs: Legs) {
    !legs.stop.Live? && !legs.limit.Live?
  }

  // What a leg was placed for.
  datatype Terms = Terms(quantity: real, price: real)

  // A stop is out for a quantity, a share of the fill below it ...
  ghost predicate StopOutAt(terms: Option<Terms>, quantity: real, fillPrice: real, share: real) {
    terms == Some(Terms(quantity, fillPrice - fillPrice * share))
  }

  // ... and a limit a share above it.
  ghost predicate LimitOutAt(terms: Option<Terms>, quantity: real, fillPrice: real, share: real) {
    terms == Some(Terms(quantity, fillPrice + fillPrice * share))
  }

  class Exchange {
    var legs: Legs
    // The terms of the legs placed, while there are any.
    var stopTerms: Option<Terms>
    var limitTerms: Option<Terms>
    // Market orders accepted so far, with the sign of the side.
    var market: seq<real>

    constructor ()
      ensures legs == Legs(Absent, Absent) && market == [] && stopTerms == None && limitTerms == None
    {
      legs, market, stopTerms, limitTerms := Legs(Absent, Absent), [], None, None;
    }

    // place_market_order: whether the exchange took it.
    method PlaceMarket(quantity: real, accepted: bool)
      modifies this`market
      ensures market == if accepted then old(market) + [quantity] else old(market)
    {
      if accepted {
        market := market + [quantity];
      }
    }

    // Time passes while the program is suspended.
    method Elapse(d: Drift)
      modifies this`legs
      ensures legs == Drifted(old(legs), d)
    {
      legs := Drifted(legs, d);
    }

    // place_stop_order: the order id, or None for the exception.
    method PlaceStop(quantity: real, price: real, a: Answer) returns (id: Option<string>)
      modifies this`legs, this`stopTerms
      ensures a.Failed? ==> id == None && legs == old(legs)
      ensures a.Placed? ==> id == Some(a.id) && legs == old(legs).(stop := Live)
      ensures stopTerms == if a.Placed? then Some(Terms(quantity, price)) else old(stopTerms)
    {
      if a.Failed? {
        return None;
      }
      legs, stopTerms := legs.(stop := Live), Some(Terms(quantity, price));
      return Some(a.id);
    }

    method PlaceLimit(quantity: real, price: real, a: Answer) returns (id: Option<string>)
      modifies this`legs, this`limitTerms
      ensures a.Failed? ==> id == None && legs == old(legs)
      ensures a.Placed? ==> id == Some(a.id) && legs == old(legs).(limit := Live)
      ensures limitTerms == if a.Placed? then Some(Terms(quantity, price)) else old(limitTerms)
    {
      if a.Failed? {
        return None;
      }
      legs, limitTerms := legs.(limit := Live), Some(Terms(quantity, price));
      return Some(a.id);
    }

    method CancelStop(takes: bool)
      modifies this`legs
      ensures legs == old(legs).(stop := CancelLeg(old(legs).stop, takes))
    {
      legs := legs.(stop := CancelLeg(legs.stop, takes));
    }

    method CancelLimit(takes: bool)
      modifies this`legs
      ensures legs == old(legs).(limit := CancelLeg(old(legs).limit, takes))
    {
      legs := legs.(limit := CancelLeg(legs.limit, takes));
    }
  }

  // -------------------------------------------------------------------- placement

  // What comes of a placement. An order accepted without an id, or under an empty one, is
  // Placed(""): the program then holds no id for it.
  datatype Answer = Failed | Placed(id: string)

  // The environment's part in one bracket placement, in order of time.
  datatype Placement = Placement(
    stopAnswer: Answer,
    afterStop: Drift,
    limitAnswer: Answer,
    afterLimit: Drift,
    cancelTakes: bool)

  // Order ids of the result; the empty string is "none" (falsy).
  datatype Ids = Ids(stop: string, limit: string)

  predicate WantsBracket(r: OrderRequest) {
    r.side == Buy && (r.stopLossPct != 0.0 || r.takeProfitPct != 0.0)
  }

  function StopId(r: OrderRequest, p: Placement): string {
    if r.stopLossPct != 0.0 && p.stopAnswer.Placed? then p.stopAnswer.id else ""
  }

  function LimitId(r: OrderRequest, p: Placement): string {
    if r.takeProfitPct != 0.0 && p.limitAnswer.Placed? then p.limitAnswer.id else ""
  }

  // The legs once both placements have been tried and time has passed.
  function LegsPlaced(r: OrderRequest, p: Placement): Legs {
    var stop := if r.stopLossPct != 0.0 && p.stopAnswer.Placed? then Live else Absent;
    var limit := if r.takeProfitPct != 0.0 && p.limitAnswer.Placed? then Live else Absent;
    Drifted(Drifted(Legs(stop, Absent), p.afterStop).(limit := limit), p.afterLimit)
  }

  // Exactly one of the two ids came back.
  predicate OneSided(r: OrderRequest, p: Placement) {
    (StopId(r, p) != "") != (LimitId(r, p) != "")
  }

  function BracketIds(r: OrderRequest, p: Placement): Ids {
    if !WantsBracket(r) || OneSided(r, p) then Ids("", "") else Ids(StopId(r, p), LimitId(r, p))
  }

  function BracketLegs(r: OrderRequest, p: Placement): Legs {
    var legs := LegsPlaced(r, p);
    if !WantsBracket(r) then Legs(Absent, Absent)
    else if !OneSided(r, p) then legs
    else if StopId(r, p) != "" then legs.(stop := CancelLeg(legs.stop, p.cancelTakes))
    else legs.(limit := CancelLeg(legs.limit, p.cancelTakes))
  }

  // The bracket part of _process_one: place the stop leg, place the limit leg, and when
  // only one id came back, cancel that leg and report none.
  method PlaceBracket(ex: Exchange, r: OrderRequest, fillPrice: real, p: Placement) returns (ids: Ids)
    requires ex.legs == Legs(Absent, Absent) && ex.stopTerms == None && ex.limitTerms == None
    modifies ex`legs, ex`stopTerms, ex`limitTerms
    ensures ids == BracketIds(r, p) && ex.legs == BracketLegs(r, p)
    // Legs are for the whole order, at their percentage below and above the fill.
    ensures if r.side == Buy && r.stopLossPct != 0.0 && p.stopAnswer.Placed?
            then StopOutAt(ex.stopTerms, r.quantity, fillPrice, r.stopLossPct) else ex.stopTerms == None
    ensures if r.side == Buy && r.takeProfitPct != 0.0 && p.limitAnswer.Placed?
            then LimitOutAt(ex.limitTerms, r.quantity, fillPrice, r.takeProfitPct) else ex.limitTerms == None
  {
    ids := Ids("", "");
    LevelsAre(fillPrice, r.stopLossPct, r.takeProfitPct);
    if r.side == Buy && (r.stopLossPct != 0.0 || r.takeProfitPct != 0.0) {
      if r.stopLossPct != 0.0 {
        var stopId := ex.PlaceStop(r.quantity, StopPrice(fillPrice, r.stopLossPct), p.stopAnswer);
        if stopId.Some? {
          ids := ids.(stop := stopId.value);
        }
      }
      ex.Elapse(p.afterStop);
      if r.takeProfitPct != 0.0 {
        var limitId := ex.PlaceLimit(r.quantity, LimitPrice(fillPrice, r.takeProfitPct), p.limitAnswer);
        if limitId.Some? {
          ids := ids.(limit := limitId.value);
        }
      }
      ex.Elapse(p.afterLimit);
      if (ids.stop != "") != (ids.limit != "") {
        if ids.stop != "" {
          ex.CancelStop(p.cancelTakes);
        } else {
          ex.CancelLimit(p.cancelTakes);
        }
        ids := Ids("", "");
      }
    }
  }

  // A leg is placed exactly for a BUY that has its percentage, when the exchange takes it;
  // one percentage is enough.
  lemma PlacedIff(r: OrderRequest, p: Placement)
    ensures BracketLegs(r, p).stop.Absent? <==> !(r.side == Buy && r.stopLossPct != 0.0 && p.stopAnswer.Placed?)
    ensures BracketLegs(r, p).limit.Absent? <==> !(r.side == Buy && r.takeProfitPct != 0.0 && p.limitAnswer.Placed?)
  {
  }

  // The ids reported are those the exchange gave.
  lemma IdsReported(r: OrderRequest, p: Placement)
    requires BracketIds(r, p) != Ids("", "")
    ensures p.stopAnswer.Placed? && p.limitAnswer.Placed?
    ensures BracketIds(r, p) == Ids(p.stopAnswer.id, p.limitAnswer.id)
  {
  }

  // ---------------------------------------------------------------- the market order

  // One poll for the fill price: it raised, or told whether the order is in a terminal
  // status and at what price.
  datatype PricePoll = Raised | Told(terminal: bool, price: Option<real>)

  // What the exchange answers to an accepted market order: perhaps a price at once, the
  // order id ("" when it gave none), and then the polls there is time for.
  datatype MarketAnswer = MarketAnswer(price: Option<real>, id: string, polls: seq<PricePoll>)

  predicate EndsPolling(p: PricePoll) {
    p.Raised? || p.terminal
  }

  function PriceTold(p: PricePoll): Option<real> {
    if p.Told? then p.price else None
  }

  // The price a list of polls settles on.
  function SettledPrice(polls: seq<PricePoll>, fallback: real): real
    decreases |polls|
  {
    if polls == [] then fallback
    else if EndsPolling(polls[0]) then FillPrice(PriceTold(polls[0]), fallback)
    else SettledPrice(polls[1..], fallback)
  }

  function MarketPrice(a: MarketAnswer, fallback: real): real {
    FillPrice(a.price, if a.id == "" then fallback else SettledPrice(a.polls, fallback))
  }

  // The price settled on is that of the first poll that raised or found the order in a
  // terminal status; a poll before it, whatever price it told, does not count.
  lemma {:induction false} FirstEndingPollSettles(polls: seq<PricePoll>, fallback: real, k: nat)
    requires k <= |polls| && forall j :: 0 <= j < k ==> !EndsPolling(polls[j])
    requires k < |polls| ==> EndsPolling(polls[k])
    ensures SettledPrice(polls, fallback) == if k < |polls| then FillPrice(PriceTold(polls[k]), fallback) else fallback
    decreases |polls|
  {
    if k == 0 {
    } else {
      FirstEndingPollSettles(polls[1..], fallback, k - 1);
    }
  }

  // The price an order is taken to have filled at: the one answered at once; failing that,
  // if the order has an id, the one told by the first poll that finds it in a terminal
  // status, provided no poll before raised; failing that, the fallback. A price of zero
  // counts as none.
  lemma MarketPriceIs(a: MarketAnswer, fallback: real, k: nat)
    requires k <= |a.polls|
    requires forall j :: 0 <= j < k ==> a.polls[j].Told? && !a.polls[j].terminal
    requires k < |a.polls| ==> a.polls[k].Raised? || a.polls[k].terminal
    ensures var price := MarketPrice(a, fallback);
            if a.price.Some? && a.price.value != 0.0 then price == a.price.value
            else if a.id != "" && k < |a.polls| && a.polls[k].Told?
                    && a.polls[k].price.Some? && a.polls[k].price.value != 0.0 then price == a.polls[k].price.value
            else price == fallback
  {
    FirstEndingPollSettles(a.polls, fallback, k);
  }

  // _poll_fill_price: a price in the first answer, else the polls, else the price at
  // signal time.
  method PollFillPrice(a: MarketAnswer, fallback: real) returns (price: real)
    ensures price == MarketPrice(a, fallback)
  {
    if a.price.Some? && a.price.value != 0.0 {
      return a.price.value;
    }
    if a.id == "" {
      return fallback;
    }
    for i := 0 to |a.polls|
      invariant SettledPrice(a.polls[i..], fallback) == SettledPrice(a.polls, fallback)
    {
      assert a.polls[i..][1..] == a.polls[i + 1..];
      var p := a.polls[i];
      if p.Raised? {
        break;
      }
      if p.terminal {
        if p.price.Some? && p.price.value != 0.0 {
          return p.price.value;
        }
        break;
      }
    }
    return fallback;
  }

  datatype Status = StaleDropped | MarketFailed | MarketFilled(fillPrice: real)

  datatype OrderResult = OrderResult(status: Status, ids: Ids)

  predicate IsStale(r: OrderRequest, now: real, staleMultiplier: real) {
    now - r.signalTs > IntervalSeconds(r.interval) as real * staleMultiplier
  }

  // An order no older than its bar's length, times the multiplier, is never stale, and
  // every older one is; so one that is stale stays so.
  lemma StaleIff(r: OrderRequest, now: real, staleMultiplier: real, later: real)
    ensures IsStale(r, now, staleMultiplier) <==>
            now > r.signalTs + staleMultiplier * SecondsOr(r.interval, 86400) as real
    ensures IsStale(r, now, staleMultiplier) && now <= later ==> IsStale(r, later, staleMultiplier)
  {
  }

  // _process_one: stale check, market order, bracket. answer is None when placing the
  // market order raised.
  method ProcessOne(ex: Exchange, r: OrderRequest, now: real, staleMultiplier: real, answer: Option<MarketAnswer>,
                    p: Placement)
    returns (result: OrderResult)
    requires ex.legs == Legs(Absent, Absent) && ex.stopTerms == None && ex.limitTerms == None
    modifies ex
    ensures result.status.StaleDropped? <==>
            now > r.signalTs + staleMultiplier * SecondsOr(r.interval, 86400) as real
    ensures !result.status.StaleDropped? ==>
              result.status == if answer.None? then MarketFailed
                               else MarketFilled(MarketPrice(answer.value, r.entryPrice))
    ensures result.ids == if result.status.MarketFilled? then BracketIds(r, p) else Ids("", "")
    ensures ex.legs == if result.status.MarketFilled? then BracketLegs(r, p) else old(ex.legs)
    ensures ex.market == if result.status.MarketFilled?
                         then old(ex.market) + [if r.side == Buy then r.quantity else -r.quantity] else old(ex.market)
    ensures result.status.MarketFilled? && r.side == Buy && r.stopLossPct != 0.0 && p.stopAnswer.Placed? ==>
              StopOutAt(ex.stopTerms, r.quantity, result.status.fillPrice, r.stopLossPct)
    ensures result.status.MarketFilled? && r.side == Buy && r.takeProfitPct != 0.0 && p.limitAnswer.Placed? ==>
              LimitOutAt(ex.limitTerms, r.quantity, result.status.fillPrice, r.takeProfitPct)
  {
    StaleIff(r, now, staleMultiplier, now);
    if now - r.signalTs > IntervalSeconds(r.interval) as real * staleMultiplier {
      return OrderResult(StaleDropped, Ids("", ""));
    }
    ex.PlaceMarket(if r.side == Buy then r.quantity else -r.quantity, answer.Some?);
    if answer.None? {
      return OrderResult(MarketFailed, Ids("", ""));
    }
    var fillPrice := PollFillPrice(answer.value, r.entryPrice);
    var ids := PlaceBracket(ex, r, fillPrice, p);
    return OrderResult(MarketFilled(fillPrice), ids);
  }

  // Ids come back, both of them, exactly when the order is a BUY with both percentages
  // and both legs were placed under a name; otherwise none does.
  lemma ProtectedIff(r: OrderRequest, p: Placement)
    ensures var ids := BracketIds(r, p);
            && (ids.stop != "" <==> ids.limit != "")
            && (ids != Ids("", "") <==>
                  && r.side == Buy && r.stopLossPct != 0.0 && r.takeProfitPct != 0.0
                  && p.stopAnswer.Placed? && p.stopAnswer.id != ""
                  && p.limitAnswer.Placed? && p.limitAnswer.id != "")
  {
  }

  // In particular a request with only one of the two percentages never ends up protected:
  // the leg it asks for is taken back, or left without an id.
  lemma OnePercentageNeverProtected(r: OrderRequest, p: Placement)
    requires (r.stopLossPct != 0.0) != (r.takeProfitPct != 0.0)
    ensures BracketIds(r, p) == Ids("", "")
  {
  }

  // A leg still live once the placements are over is taken back only if the program was
  // told its name and the cancel takes effect.
  predicate TakenBack(r: OrderRequest, p: Placement) {
    var l := LegsPlaced(r, p);
    && (l.stop.Live? ==> StopId(r, p) != "" && p.cancelTakes)
    && (l.limit.Live? ==> LimitId(r, p) != "" && p.cancelTakes)
  }

  // For every combination of placements and failures: both ids or neither. With both,
  // both legs were placed; with neither, no leg is live at the exchange if and only if
  // no bracket was asked for or the leg still live was taken back.
  lemma BracketAtomic(r: OrderRequest, p: Placement)
    ensures var ids := BracketIds(r, p);
            && (ids.stop != "" <==> ids.limit != "")
            && (ids.stop == "" ==> (NoneLive(BracketLegs(r, p)) <==> !WantsBracket(r) || TakenBack(r, p)))
            && (ids.stop != "" ==> BracketLegs(r, p) == LegsPlaced(r, p)
                                   && !BracketLegs(r, p).stop.Absent? && !BracketLegs(r, p).limit.Absent?)
  {
  }

  // The exchange names the orders it accepts.
  predicate NamesOrders(p: Placement) {
    (p.stopAnswer.Placed? ==> p.stopAnswer.id != "") && (p.limitAnswer.Placed? ==> p.limitAnswer.id != "")
  }

  // With named orders and cancels that take effect a live leg is always taken back.
  lemma NamedOrdersTakenBack(r: OrderRequest, p: Placement)
    requires NamesOrders(p) && p.cancelTakes
    ensures TakenBack(r, p)
  {
  }

  // An input that leaves a leg behind: the stop order is accepted under an empty id and
  // stays live, whether or not cancels take effect.
  lemma UnnamedOrderLeftBehind(r: OrderRequest, id: string, cancelTakes: bool)
    requires r.side == Buy && r.stopLossPct != 0.0 && r.takeProfitPct != 0.0 && id != ""
    ensures var p := Placement(Placed(""), Drift(Absent, Absent), Placed(id), Drift(Absent, Absent), cancelTakes);
            BracketIds(r, p) == Ids("", "") && !NoneLive(BracketLegs(r, p))
  {
  }

  // --------------------------------------------------------------------- the monitor

  // The environment's part in one round of the polling loop.
  datatype Poll = Poll(
    before: Drift,
    stopError: bool,
    between: Drift,
    limitError: bool,
    after: Drift,
    cancelTakes: bool)

  // What a round saw of the two legs, None for a poll that raised.
  function Seen(legs: Legs, p: Poll): Option<Legs> {
    var l1 := Drifted(legs, p.before);
    var l2 := Drifted(l1, p.between);
    if p.stopError || p.limitError then None else Some(Legs(l1.stop, l2.limit))
  }

  // The legs after the round's polls. The limit leg is not polled once the stop poll raised.
  function LegsPolled(legs: Legs, p: Poll): Legs {
    var l1 := Drifted(legs, p.before);
    if p.stopError then l1 else Drifted(l1, p.between)
  }

  datatype Exit = StopFilled(price: real) | LimitFilled(price: real) | StopDead | LimitDead

  // The four tests of a round, in their order. A filled stop wins over everything.
  function Decide(seen: Legs, slPrice: real, tpPrice: real): Option<Exit> {
    if seen.stop.Filled? then Some(StopFilled(FillPrice(seen.stop.fillPrice, slPrice)))
    else if seen.limit.Filled? then Some(LimitFilled(FillPrice(seen.limit.fillPrice, tpPrice)))
    else if Terminal(seen.stop) then Some(StopDead)
    else if Terminal(seen.limit) then Some(LimitDead)
    else None
  }

  // The exit reason a fill is journalled under.
  function ReasonOf(exit: Exit): string {
    if exit.StopFilled? then "OCO_SL" else "OCO_TP"
  }

  // What the monitor is told when it is started.
  datatype Watch = Watch(ticker: string, entryPrice: real, slPrice: real, tpPrice: real, quantity: real,
                         modelId: string, entryTime: real, cooldown: real,
                         retirement: Performance.RetirementConfig)

  function ClosedEntry(w: Watch, reason: string, exitPrice: real, now: real): JournalEntry {
    JournalEntry(w.modelId, w.ticker, w.entryPrice, exitPrice, w.quantity, w.entryTime, now, reason,
                 (exitPrice - w.entryPrice) * w.quantity, PnlPct(w.entryPrice, exitPrice))
  }

  // The entry of an exit, as a reader of the journal sees it.
  ghost predicate Reports(e: JournalEntry, w: Watch, reason: string, exitPrice: real, now: real) {
    && e.modelId == w.modelId && e.ticker == w.ticker && e.quantity == w.quantity
    && e.entryPrice == w.entryPrice && e.exitPrice == exitPrice
    && e.entryTime == w.entryTime && e.exitTime == now && e.exitReason == reason
    && e.realizedPnl == exitPrice * w.quantity - w.entryPrice * w.quantity
    && (if w.entryPrice == 0.0 then e.pnlPct == 0.0 else e.pnlPct * w.entryPrice == exitPrice - w.entryPrice)
  }

  lemma ClosedEntryReports(w: Watch, reason: string, exitPrice: real, now: real)
    ensures Reports(ClosedEntry(w, reason, exitPrice, now), w, reason, exitPrice, now)
  {
    PnlPctIs(w.entryPrice, exitPrice);
  }

  // _close_position: a cooldown row in place of the position and, when the model is known,
  // a journal entry that is also booked on its performance record.
  method ClosePosition(repo: PositionRepo, perf: Performance.ModelPerformance, w: Watch, reason: string,
                       exitPrice: real, now: real)
    returns (journal: seq<JournalEntry>)
    modifies repo, perf
    ensures repo.rows == old(repo.rows)[w.ticker := CooldownRow(now, w.cooldown)]
    ensures journal == if w.modelId == "" then [] else [ClosedEntry(w, reason, exitPrice, now)]
    ensures w.modelId != "" ==> Reports(journal[0], w, reason, exitPrice, now)
    ensures perf.Record() == Booked(old(perf.Record()), Journalled(journal), w.retirement, now)
  {
    repo.Remove(w.ticker);
    repo.Upsert(w.ticker, CooldownRow(now, w.cooldown));
    journal := [];
    if w.modelId != "" {
      var entry := ClosedEntry(w, reason, exitPrice, now);
      ClosedEntryReports(w, reason, exitPrice, now);
      journal := [entry];
      Book(perf, entry, w.retirement, now);
    }
  }

  // The one entry of a closed position's journal, if any.
  function Journalled(journal: seq<JournalEntry>): Option<JournalEntry> {
    if journal == [] then None else Some(journal[0])
  }

  // The legs when round k begins, if no earlier round has ended the loop.
  function LegsAt(legs: Legs, polls: seq<Poll>, k: nat): Legs
    requires k <= |polls|
  {
    if k == 0 then legs else LegsPolled(LegsAt(legs, polls, k - 1), polls[k - 1])
  }

  // What round k decides, if anything.
  function DecidedAt(legs: Legs, polls: seq<Poll>, k: nat, slPrice: real, tpPrice: real): Option<Exit>
    requires k < |polls|
  {
    var seen := Seen(LegsAt(legs, polls, k), polls[k]);
    if seen.None? then None else Decide(seen.value, slPrice, tpPrice)
  }

  // Round k is the first decisive one.
  ghost predicate FirstDecisive(legs: Legs, polls: seq<Poll>, k: nat, exit: Exit, slPrice: real, tpPrice: real) {
    && k < |polls|
    && DecidedAt(legs, polls, k, slPrice, tpPrice) == Some(exit)
    && forall j :: 0 <= j < k ==> DecidedAt(legs, polls, j, slPrice, tpPrice) == None
  }

  // The legs just before, and just after, the cancel request of the decisive round k.
  function LegsAtCancel(legs: Legs, polls: seq<Poll>, k: nat): Legs
    requires k < |polls|
  {
    Drifted(LegsPolled(LegsAt(legs, polls, k), polls[k]), polls[k].after)
  }

  function LegsAtExit(legs: Legs, polls: seq<Poll>, k: nat, exit: Exit): Legs
    requires k < |polls|
  {
    var l := LegsAtCancel(legs, polls, k);
    if exit.StopFilled? || exit.StopDead? then l.(limit := CancelLeg(l.limit, polls[k].cancelTakes))
    else l.(stop := CancelLeg(l.stop, polls[k].cancelTakes))
  }

  // monitor_oco over the rounds the environment grants it. None: still watching after
  // all of them. Otherwise the first decisive round k, and the loop has ended there.
  method MonitorOco(ex: Exchange, repo: PositionRepo, perf: Performance.ModelPerformance, w: Watch, polls: seq<Poll>,
                    clock: seq<real>)
    returns (exit: Option<Exit>, ghost k: nat, journal: seq<JournalEntry>)
    requires |clock| == |polls|
    modifies ex`legs, repo, perf
    ensures exit.None? ==>
              && (forall j :: 0 <= j < |polls| ==> DecidedAt(old(ex.legs), polls, j, w.slPrice, w.tpPrice) == None)
              && ex.legs == LegsAt(old(ex.legs), polls, |polls|)
              && repo.rows == old(repo.rows) && journal == [] && perf.Record() == old(perf.Record())
    ensures exit.Some? ==>
              && FirstDecisive(old(ex.legs), polls, k, exit.value, w.slPrice, w.tpPrice)
              && ex.legs == LegsAtExit(old(ex.legs), polls, k, exit.value)
    // Only a fill closes the position, once, at the observed price.
    ensures exit.Some? && (exit.value.StopDead? || exit.value.LimitDead?) ==>
              repo.rows == old(repo.rows) && journal == [] && perf.Record() == old(perf.Record())
    ensures exit.Some? && (exit.value.StopFilled? || exit.value.LimitFilled?) ==>
              && repo.rows == old(repo.rows)[w.ticker := CooldownRow(clock[k], w.cooldown)]
              && journal == (if w.modelId == "" then []
                             else [ClosedEntry(w, ReasonOf(exit.value), exit.value.price, clock[k])])
              && (w.modelId != "" && exit.value.StopFilled? ==>
                    Reports(journal[0], w, "OCO_SL", exit.value.price, clock[k]))
              && (w.modelId != "" && exit.value.LimitFilled? ==>
                    Reports(journal[0], w, "OCO_TP", exit.value.price, clock[k]))
              && perf.Record() == Booked(old(perf.Record()), Journalled(journal), w.retirement, clock[k])
  {
    exit, k, journal := None, 0, [];
    ghost var start := ex.legs;
    var i := 0;
    while i < |polls|
      invariant 0 <= i <= |polls|
      invariant exit == None && journal == [] && repo.rows == old(repo.rows) && perf.Record() == old(perf.Record())
      invariant ex.legs == LegsAt(start, polls, i)
      invariant forall j :: 0 <= j < i ==> DecidedAt(start, polls, j, w.slPrice, w.tpPrice) == None
    {
      var p := polls[i];
      ex.Elapse(p.before);
      var stop := ex.legs.stop;
      if p.stopError {
        i := i + 1;
        continue;
      }
      ex.Elapse(p.between);
      var limit := ex.legs.limit;
      if p.limitError {
        i := i + 1;
        continue;
      }
      k := i;
      if stop.Filled? {
        var price := FillPrice(stop.fillPrice, w.slPrice);
        journal := ClosePosition(repo, perf, w, "OCO_SL", price, clock[i]);
        ex.Elapse(p.after);
        ex.CancelLimit(p.cancelTakes);
        exit := Some(StopFilled(price));
        break;
      }
      if limit.Filled? {
        var price := FillPrice(limit.fillPrice, w.tpPrice);
        journal := ClosePosition(repo, perf, w, "OCO_TP", price, clock[i]);
        ex.Elapse(p.after);
        ex.CancelStop(p.cancelTakes);
        exit := Some(LimitFilled(price));
        break;
      }
      if Terminal(stop) {
        ex.Elapse(p.after);
        ex.CancelLimit(p.cancelTakes);
        exit := Some(StopDead);
        break;
      }
      if Terminal(limit) {
        ex.Elapse(p.after);
        ex.CancelStop(p.cancelTakes);
        exit := Some(LimitDead);
        break;
      }
      i := i + 1;
    }
  }

  // A terminal leg stays as it is, whatever the exchange would like.
  lemma {:induction false} LegsAtTerminal(legs: Legs, polls: seq<Poll>, k: nat)
    requires k <= |polls|
    ensures Terminal(legs.stop) ==> LegsAt(legs, polls, k).stop == legs.stop
    ensures Terminal(legs.limit) ==> LegsAt(legs, polls, k).limit == legs.limit
    ensures !legs.stop.Absent? ==> !LegsAt(legs, polls, k).stop.Absent?
    ensures !legs.limit.Absent? ==> !LegsAt(legs, polls, k).limit.Absent?
  {
    if k == 0 {
    } else {
      LegsAtTerminal(legs, polls, k - 1);
    }
  }

  // When the monitor ends, no leg is live at the exchange if and only if the cancel of a
  // leg that was still live took effect.
  lemma MonitorLeavesNoLeg(legs: Legs, polls: seq<Poll>, k: nat, exit: Exit, slPrice: real, tpPrice: real)
    requires FirstDecisive(legs, polls, k, exit, slPrice, tpPrice)
    ensures NoneLive(LegsAtExit(legs, polls, k, exit)) <==>
              NoneLive(LegsAtCancel(legs, polls, k)) || polls[k].cancelTakes
  {
  }

  // An exit is truthful: the position is closed only when a leg did fill, by the stop
  // leg whenever that one filled, and a dead leg never closes it.
  lemma ExitIsTruthful(legs: Legs, polls: seq<Poll>, k: nat, exit: Exit, slPrice: real, tpPrice: real)
    requires FirstDecisive(legs, polls, k, exit, slPrice, tpPrice)
    ensures var l := LegsAtExit(legs, polls, k, exit);
            && (exit.StopFilled? ==> l.stop.Filled? && exit.price == FillPrice(l.stop.fillPrice, slPrice))
            && (exit.LimitFilled? ==> l.limit.Filled? && exit.price == FillPrice(l.limit.fillPrice, tpPrice))
            && (exit.StopDead? ==> (l.stop.Cancelled? || l.stop.Rejected?))
            && (exit.LimitDead? ==> (l.limit.Cancelled? || l.limit.Rejected?))
  {
  }

  // The legs as round k polled them: the stop leg first, and the limit leg after what may
  // have happened in between.
  function LegsPolledIn(legs: Legs, polls: seq<Poll>, k: nat): Legs
    requires k < |polls|
  {
    var first := Drifted(LegsAt(legs, polls, k), polls[k].before);
    Legs(first.stop, Drifted(first, polls[k].between).limit)
  }

  // A round decides exactly when both its polls succeed and it sees a leg that has ended.
  lemma DecidesIff(legs: Legs, polls: seq<Poll>, k: nat, slPrice: real, tpPrice: real)
    requires k < |polls|
    ensures var seen := LegsPolledIn(legs, polls, k);
            DecidedAt(legs, polls, k, slPrice, tpPrice).Some? <==>
              && !polls[k].stopError && !polls[k].limitError
              && (|| seen.stop.Filled? || seen.stop.Cancelled? || seen.stop.Rejected?
                  || seen.limit.Filled? || seen.limit.Cancelled? || seen.limit.Rejected?)
  {
  }

  // What it decides: the position is closed if and only if the round saw a leg filled, at
  // the stop's price if it saw the stop filled and otherwise at the limit's; a price the
  // exchange did not report, or reported as zero, gives way to the leg's own.
  lemma ClosedIffSeenFilled(legs: Legs, polls: seq<Poll>, k: nat, exit: Exit, slPrice: real, tpPrice: real)
    requires FirstDecisive(legs, polls, k, exit, slPrice, tpPrice)
    ensures var seen := LegsPolledIn(legs, polls, k);
            && (exit.StopFilled? || exit.LimitFilled? <==> seen.stop.Filled? || seen.limit.Filled?)
            && (exit.StopFilled? <==> seen.stop.Filled?)
            && (exit.StopDead? <==> !seen.limit.Filled? && (seen.stop.Cancelled? || seen.stop.Rejected?))
            && (exit.StopFilled? ==> PricedAt(exit.price, seen.stop.fillPrice, slPrice))
            && (exit.LimitFilled? ==> PricedAt(exit.price, seen.limit.fillPrice, tpPrice))
  {
  }

  // The reported price, or the level where there is none.
  ghost predicate PricedAt(price: real, reported: Option<real>, level: real) {
    if reported == None || reported == Some(0.0) then price == level else Some(price) == reported
  }

  // A leg filled that the deciding round did not see, because it saw the other leg dead:
  // the fill came between its polls and the cancel request.
  predicate FilledUnseen(exit: Exit, seen: Legs, atCancel: Legs) {
    || (exit.StopDead? && !seen.limit.Filled? && atCancel.limit.Filled?)
    || (exit.LimitDead? && !seen.stop.Filled? && atCancel.stop.Filled?)
  }

  // A second leg seen filled with the first, or filled in the same interval.
  predicate FilledTwice(exit: Exit, seen: Legs, atCancel: Legs) {
    || (seen.stop.Filled? && seen.limit.Filled?)
    || (exit.StopFilled? && !seen.limit.Filled? && atCancel.limit.Filled?)
    || (exit.LimitFilled? && !seen.stop.Filled? && atCancel.stop.Filled?)
  }

  // The position is closed exactly when a leg has filled, except for a fill that was not
  // seen; and both legs have filled exactly when both were seen so or a second filled late.
  lemma ClosedIffFilled(legs: Legs, polls: seq<Poll>, k: nat, exit: Exit, slPrice: real, tpPrice: real)
    requires FirstDecisive(legs, polls, k, exit, slPrice, tpPrice)
    ensures var l, c := LegsAtExit(legs, polls, k, exit), LegsAtCancel(legs, polls, k);
            var seen := LegsPolledIn(legs, polls, k);
            && (((exit.StopFilled? || exit.LimitFilled?) <==> (l.stop.Filled? || l.limit.Filled?))
                  <==> !FilledUnseen(exit, seen, c))
            && (l.stop.Filled? && l.limit.Filled? <==> FilledTwice(exit, seen, c))
  {
  }

  // The inputs: the round sees the stop leg cancelled, or filled, and the limit leg fills
  // before it can be cancelled.
  lemma LateFills(price: real, slPrice: real, tpPrice: real, cancelTakes: bool)
    ensures var still := Drift(Absent, Absent);
            var late := Drift(Absent, Filled(Some(price)));
            var dead := [Poll(Drift(Cancelled, Absent), false, still, false, late, cancelTakes)];
            var hit := [Poll(Drift(Filled(Some(price)), Absent), false, still, false, late, cancelTakes)];
            var live := Legs(Live, Live);
            && FirstDecisive(live, dead, 0, StopDead, slPrice, tpPrice)
            && LegsAtExit(live, dead, 0, StopDead).limit.Filled?
            && FirstDecisive(live, hit, 0, StopFilled(FillPrice(Some(price), slPrice)), slPrice, tpPrice)
            && LegsAtExit(live, hit, 0, StopFilled(FillPrice(Some(price), slPrice))).limit.Filled?
  {
    var still := Drift(Absent, Absent);
    var late := Drift(Absent, Filled(Some(price)));
    var dead := [Poll(Drift(Cancelled, Absent), false, still, false, late, cancelTakes)];
    var hit := [Poll(Drift(Filled(Some(price)), Absent), false, still, false, late, cancelTakes)];
    var live := Legs(Live, Live);
    assert DecidedAt(live, dead, 0, slPrice, tpPrice) == Some(StopDead);
    assert DecidedAt(live, hit, 0, slPrice, tpPrice) == Some(StopFilled(FillPrice(Some(price), slPrice)));
  }

  // No round is wasted: if a leg is terminal when round j begins and its polls succeed,
  // the monitor has ended by then.
  lemma TerminalLegEndsMonitor(legs: Legs, polls: seq<Poll>, j: nat, slPrice: real, tpPrice: real)
    requires j < |polls| && !polls[j].stopError && !polls[j].limitError
    requires var l := LegsAt(legs, polls, j); Terminal(l.stop) || Terminal(l.limit)
    ensures exists k: nat, exit :: k <= j && FirstDecisive(legs, polls, k, exit, slPrice, tpPrice)
  {
    assert DecidedAt(legs, polls, j, slPrice, tpPrice).Some?;
    var k := FirstDecision(legs, polls, j, slPrice, tpPrice);
    var exit := DecidedAt(legs, polls, k, slPrice, tpPrice).value;
    assert FirstDecisive(legs, polls, k, exit, slPrice, tpPrice);
  }

  lemma FirstDecision(legs: Legs, polls: seq<Poll>, j: nat, slPrice: real, tpPrice: real) returns (k: nat)
    requires j < |polls| && DecidedAt(legs, polls, j, slPrice, tpPrice).Some?
    ensures k <= j && DecidedAt(legs, polls, k, slPrice, tpPrice).Some?
    ensures forall i :: 0 <= i < k ==> DecidedAt(legs, polls, i, slPrice, tpPrice) == None
  {
    k := 0;
    while DecidedAt(legs, polls, k, slPrice, tpPrice).None?
      invariant k <= j
      invariant forall i :: 0 <= i < k ==> DecidedAt(legs, polls, i, slPrice, tpPrice) == None
      decreases j - k
    {
      k := k + 1;
    }
  }

  // ------------------------------------------------- the two components together

  // From placement to the end of the monitor. If placement reports no ids, no leg is live
  // if and only if none was asked for or what was live was taken back; if it reports ids,
  // the monitor starts, and when it ends no leg is live if and only if none was live
  // before its cancel request or that request took effect.
  lemma NoLegLeftBehind(r: OrderRequest, p: Placement, polls: seq<Poll>, k: nat, exit: Exit, slPrice: real,
                        tpPrice: real)
    ensures BracketIds(r, p).stop == "" ==> (NoneLive(BracketLegs(r, p)) <==> !WantsBracket(r) || TakenBack(r, p))
    ensures BracketIds(r, p).stop != "" && FirstDecisive(BracketLegs(r, p), polls, k, exit, slPrice, tpPrice) ==>
              (NoneLive(LegsAtExit(BracketLegs(r, p), polls, k, exit)) <==>
                 NoneLive(LegsAtCancel(BracketLegs(r, p), polls, k)) || polls[k].cancelTakes)
  {
    BracketAtomic(r, p);
    if FirstDecisive(BracketLegs(r, p), polls, k, exit, slPrice, tpPrice) {
      MonitorLeavesNoLeg(BracketLegs(r, p), polls, k, exit, slPrice, tpPrice);
    }
  }

  // So, for orders with names and cancels of live legs that take effect, none is ever
  // left behind.
  lemma NamedLegsNeverLeftBehind(r: OrderRequest, p: Placement, polls: seq<Poll>, k: nat, exit: Exit, slPrice: real,
                                 tpPrice: real)
    requires NamesOrders(p) && p.cancelTakes && forall q <- polls :: q.cancelTakes
    ensures BracketIds(r, p).stop == "" ==> NoneLive(BracketLegs(r, p))
    ensures BracketIds(r, p).stop != "" && FirstDecisive(BracketLegs(r, p), polls, k, exit, slPrice, tpPrice)
            ==> NoneLive(LegsAtExit(BracketLegs(r, p), polls, k, exit))
  {
    NamedOrdersTakenBack(r, p);
    NoLegLeftBehind(r, p, polls, k, exit, slPrice, tpPrice);
  }
}
