/** The bar-close scheduler (alphaTrade/scheduler/bar_close.py). Times are seconds since
    the epoch; the wall clock, the exchange calendar and the callback's duration are
    inputs. */
module BarClose {
  import opened Wrappers
  import opened RealMath
  import opened Trading

  // The intervals of the scheduler's table; it raises for any other.
  predicate Supported(interval: Interval) {
    !interval.H4? && !interval.Other?
  }

  type Scheduled = i: Interval | Supported(i) witness M1

  predicate IsIntraday(interval: Interval) {
    interval.M1? || interval.M5? || interval.M15? || interval.H1?
  }

  function Period(interval: Scheduled): (p: nat)
    ensures p > 0
  {
    SecondsOr(interval, 0)
  }

  function Margin(interval: Interval): nat {
    match interval
    case M1 => 5
    case M5 => 5
    case M15 => 5
    case H1 => 10
    case D1 => 30
    case W1 => 30
    case _ => 10
  }

  // The safety margins, in seconds.
  lemma MarginsAre(interval: Scheduled)
    ensures Margin(interval) == if interval == H1 then 10 else if interval == D1 || interval == W1 then 30 else 5
  {
  }

  // How many boundaries of the period lie at or before a time.
  function BarsElapsed(period: nat, now: real): int
    requires period > 0
  {
    (now / period as real).Floor
  }

  // The k-th boundary of the period.
  function Boundary(period: nat, k: int): real {
    k as real * period as real
  }

  function NextIntraday(interval: Scheduled, now: real): real {
    Boundary(Period(interval), BarsElapsed(Period(interval), now) + 1) + Margin(interval) as real
  }

  lemma BoundaryAdd(period: nat, i: int, j: int)
    ensures Boundary(period, i + j) == Boundary(period, i) + Boundary(period, j)
    ensures Boundary(period, 1) == period as real
    ensures Boundary(period, 0) == 0.0
  {
  }

  lemma BoundaryMonotone(period: nat, i: int, j: int)
    requires i <= j && period > 0
    ensures Boundary(period, i) <= Boundary(period, j)
    ensures i < j ==> Boundary(period, i) < Boundary(period, j)
  {
    var a, b, p := i as real, j as real, period as real;
    assert i < j ==> a < b;
    MulMono(a, b, p);
    assert Boundary(period, i) == a * p && Boundary(period, j) == b * p;
  }

  lemma BoundaryAround(period: nat, now: real)
    requires period > 0
    ensures var k := BarsElapsed(period, now); Boundary(period, k) <= now < Boundary(period, k + 1)
  {
    var p := period as real;
    var q := now / p;
    var k := q.Floor;
    assert q * p == now;
    MulMono(k as real, q, p);
    assert Boundary(period, k) <= now;
    assert q < (k + 1) as real;
    MulMono(q, (k + 1) as real, p);
    var next := (k + 1) as real * p;
    assert q * p < next;
    assert now < next;
    assert Boundary(period, k + 1) == next;
  }

  // The target is the next whole multiple of the bar's length, plus the margin.
  lemma IntradayTargetIs(interval: Scheduled, now: real, k: int)
    requires var period := SecondsOr(interval, 0) as real; (k - 1) as real * period <= now < k as real * period
    ensures NextIntraday(interval, now) == k as real * SecondsOr(interval, 0) as real + Margin(interval) as real
  {
    var p := Period(interval);
    BoundaryAround(p, now);
    var e := BarsElapsed(p, now);
    if e < k - 1 {
      BoundaryMonotone(p, e + 1, k - 1);
      assert false;
    } else if k - 1 < e {
      BoundaryMonotone(p, k, e);
      assert false;
    }
  }

  // The target lies ahead, by more than the margin and at most a period plus the margin.
  lemma TargetAhead(interval: Scheduled, now: real)
    ensures var ahead := NextIntraday(interval, now) - now;
            Margin(interval) as real < ahead <= (Period(interval) + Margin(interval)) as real
  {
    BoundaryAround(Period(interval), now);
    var k := BarsElapsed(Period(interval), now);
    BoundaryAdd(Period(interval), k, 1);
  }

  // It is the earliest time still to come of the form boundary-plus-margin exactly when
  // the margin of the last boundary has run out; before that, the bar that has just
  // closed is passed over.
  lemma EarliestIffMarginOver(interval: Scheduled, now: real)
    ensures var k := BarsElapsed(Period(interval), now);
            (forall j: int :: Boundary(Period(interval), j) + Margin(interval) as real > now ==>
               NextIntraday(interval, now) <= Boundary(Period(interval), j) + Margin(interval) as real)
            <==> now >= Boundary(Period(interval), k) + Margin(interval) as real
  {
    var p := Period(interval);
    var k := BarsElapsed(p, now);
    BoundaryAround(p, now);
    BoundaryAdd(p, k, 1);
    if now >= Boundary(p, k) + Margin(interval) as real {
      forall j: int | Boundary(p, j) + Margin(interval) as real > now
        ensures NextIntraday(interval, now) <= Boundary(p, j) + Margin(interval) as real
      {
        if j <= k {
          BoundaryMonotone(p, j, k);
          assert false;
        }
        BoundaryMonotone(p, k + 1, j);
      }
    }
  }

  // An input for which it is not: five seconds past an hour, the hourly bar that has just
  // closed is due in five more, and the target is an hour later.
  lemma StartedWithinMargin()
    ensures Boundary(Period(H1), 1) + Margin(H1) as real == 3610.0
    ensures NextIntraday(H1, 3605.0) == 7210.0
  {
    var q := 3605.0 / 3600.0;
    assert q * 3600.0 == 3605.0;
    assert 1.0 <= q < 2.0;
    assert BarsElapsed(Period(H1), 3605.0) == 1;
  }

  // From one target to the next: the loop comes back at a time not before the target, so
  // the next target is later by one period, and one more for every boundary crossed
  // meanwhile: each of those is a bar skipped.
  lemma NextTarget(interval: Scheduled, k: int, back: real)
    requires back >= Boundary(Period(interval), k) + Margin(interval) as real
    ensures var crossed := BarsElapsed(Period(interval), back) - k;
            && crossed >= 0
            && NextIntraday(interval, back)
               == Boundary(Period(interval), k) + Margin(interval) as real + Boundary(Period(interval), crossed + 1)
  {
    var p := Period(interval);
    var e := BarsElapsed(p, back);
    BoundaryAround(p, back);
    if e < k {
      BoundaryMonotone(p, e + 1, k);
    }
    BoundaryAdd(p, k, e - k + 1);
  }

  // The boundaries crossed are those after the target's own and not after the return.
  lemma CrossedBoundaries(interval: Scheduled, k: int, back: real, i: int)
    requires back >= Boundary(Period(interval), k) + Margin(interval) as real
    ensures Boundary(Period(interval), k) < Boundary(Period(interval), i) <= back
            <==> k < i <= BarsElapsed(Period(interval), back)
  {
    var p := Period(interval);
    var e := BarsElapsed(p, back);
    BoundaryAround(p, back);
    if i <= k {
      BoundaryMonotone(p, i, k);
    } else {
      BoundaryMonotone(p, k, i);
      if i <= e {
        BoundaryMonotone(p, i, e);
      } else {
        BoundaryMonotone(p, e + 1, i);
      }
    }
  }

  // No bar is skipped, the next target being exactly one period later, if and only if the
  // loop is back before the next boundary: the callback took less than period - margin.
  lemma OnePeriodLaterIff(interval: Scheduled, k: int, back: real)
    requires back >= Boundary(Period(interval), k) + Margin(interval) as real
    ensures NextIntraday(interval, back)
            == Boundary(Period(interval), k) + Margin(interval) as real + Period(interval) as real
            <==> back < Boundary(Period(interval), k + 1)
  {
    var p := Period(interval);
    NextTarget(interval, k, back);
    CrossedBoundaries(interval, k, back, k + 1);
    BoundaryMonotone(p, k, k + 1);
    var crossed := BarsElapsed(p, back) - k;
    BoundaryAdd(p, 0, 1);
    BoundaryMonotone(p, 1, crossed + 1);
  }

  // -------------------------------------------------- the daily and weekly searches

  // What the exchange calendar says of a day, by day number.
  datatype Day = LookupRaises | NoSession | Session(close: real)

  type Calendar = int -> Day

  const DAY: nat := 86400

  // Day 0, 1 January 1970, was a Thursday.
  predicate IsFriday(day: int) {
    (day + 3) % 7 == 4
  }

  // Fridays are the day after day 0 and every seventh from there.
  ghost predicate SevenApartFromFirstFriday(day: int) {
    exists w: int :: day == 1 + 7 * w
  }

  lemma IsFridayIff(day: int)
    ensures IsFriday(day) <==> SevenApartFromFirstFriday(day)
  {
    if IsFriday(day) {
      assert day == 1 + 7 * ((day - 1) / 7);
    }
  }

  // The days that a search considers: all of the next ten, or the Fridays of the next
  // fourteen.
  predicate Considered(interval: Interval, day: int) {
    interval.W1? ==> IsFriday(day)
  }

  function SearchLength(interval: Interval): nat {
    if interval.W1? then 14 else 10
  }

  // The search from a day on: the first session close, plus margin, still to come. None
  // when there is none, or when a lookup raises before one is found.
  function Search(c: Calendar, interval: Interval, now: real, day: int, left: nat): Option<real>
    decreases left
  {
    if left == 0 then None
    else if !Considered(interval, day) then Search(c, interval, now, day + 1, left - 1)
    else
      match c(day)
      case LookupRaises => None
      case NoSession => Search(c, interval, now, day + 1, left - 1)
      case Session(close) =>
        var target := close + Margin(interval) as real;
        if target > now then Some(target) else Search(c, interval, now, day + 1, left - 1)
  }

  // The day gives the search a target.
  predicate Gives(c: Calendar, interval: Interval, now: real, day: int, target: real) {
    Considered(interval, day) && c(day).Session? && target == c(day).close + Margin(interval) as real && target > now
  }

  // The day neither gives a target nor ends the search.
  predicate PassedOver(c: Calendar, interval: Interval, now: real, day: int) {
    Considered(interval, day) ==>
      c(day).NoSession? || (c(day).Session? && c(day).close + Margin(interval) as real <= now)
  }

  // A search finds a target if and only if it is that of the first day that is not passed
  // over, and within reach.
  lemma {:induction false} SearchFindsFirst(c: Calendar, interval: Interval, now: real, day: int, left: nat,
                                            target: real)
    ensures Search(c, interval, now, day, left) == Some(target) <==>
              exists d :: day <= d < day + left && Gives(c, interval, now, d, target)
                && forall e :: day <= e < d ==> PassedOver(c, interval, now, e)
    decreases left
  {
    if left == 0 {
    } else {
      SearchFindsFirst(c, interval, now, day + 1, left - 1, target);
      if Gives(c, interval, now, day, target) {
        assert day <= day < day + left;
      } else if PassedOver(c, interval, now, day) {
        assert forall d :: day <= d < day + left && Gives(c, interval, now, d, target) ==> day + 1 <= d;
      } else {
        assert !PassedOver(c, interval, now, day);
      }
    }
  }

  // next_bar_close for a supported interval. The calendar is None when it cannot be had.
  function NextSupported(calendar: Option<Calendar>, interval: Scheduled, now: real): real {
    var found := if IsIntraday(interval) || calendar.None? then None
                 else Search(calendar.value, interval, now, BarsElapsed(DAY, now), SearchLength(interval));
    if found.Some? then found.value else NextIntraday(interval, now)
  }

  // A day on which the search has nothing to look at, or a close whose margin has run out.
  ghost predicate NothingToCome(c: Calendar, interval: Interval, now: real, day: int) {
    || (interval == W1 && !SevenApartFromFirstFriday(day))
    || c(day).NoSession?
    || (c(day).Session? && c(day).close + 30.0 <= now)
  }

  // A daily target is half a minute after the first session close still to come in that
  // sense, of today and the nine days after; a weekly one that of a Friday, of today and
  // the thirteen days after.
  lemma SessionTargetIs(c: Calendar, interval: Scheduled, now: real, today: int, day: int)
    requires interval == D1 || interval == W1
    requires today as real * 86400.0 <= now < (today + 1) as real * 86400.0
    requires today <= day < today + (if interval == D1 then 10 else 14)
    requires forall e :: today <= e < day ==> NothingToCome(c, interval, now, e)
    requires c(day).Session? && c(day).close + 30.0 > now
    requires interval == W1 ==> SevenApartFromFirstFriday(day)
    ensures NextSupported(Some(c), interval, now) == c(day).close + 30.0
  {
    TodayIs(now, today);
    forall e
      ensures IsFriday(e) <==> SevenApartFromFirstFriday(e)
    {
      IsFridayIff(e);
    }
    forall e | today <= e < day
      ensures PassedOver(c, interval, now, e)
    {
      assert NothingToCome(c, interval, now, e);
    }
    assert Gives(c, interval, now, day, c(day).close + 30.0);
    SearchFindsFirst(c, interval, now, today, SearchLength(interval), c(day).close + 30.0);
  }

  // Without one, when a lookup raises first, without a calendar, or intraday, the target is
  // that of the fixed period.
  lemma PeriodTargetIs(calendar: Option<Calendar>, interval: Scheduled, now: real, today: int, days: nat)
    requires today as real * 86400.0 <= now < (today + 1) as real * 86400.0
    requires days <= if interval == D1 then 10 else 14
    requires (interval == D1 || interval == W1) && calendar.Some? ==>
               && (forall e :: today <= e < today + days ==> NothingToCome(calendar.value, interval, now, e))
               && (days < (if interval == D1 then 10 else 14) ==>
                     && calendar.value(today + days).LookupRaises?
                     && (interval == W1 ==> SevenApartFromFirstFriday(today + days)))
    ensures NextSupported(calendar, interval, now) == NextIntraday(interval, now)
  {
    if (interval == D1 || interval == W1) && calendar.Some? {
      TodayIs(now, today);
      IsFridayIff(today + days);
      forall e | today <= e < today + days
        ensures PassedOver(calendar.value, interval, now, e)
      {
        IsFridayIff(e);
        assert NothingToCome(calendar.value, interval, now, e);
      }
      SearchFindsNone(calendar.value, interval, now, today, SearchLength(interval), days);
    }
  }

  lemma {:induction false} SearchFindsNone(c: Calendar, interval: Interval, now: real, day: int, left: nat, days: nat)
    requires days <= left && forall e :: day <= e < day + days ==> PassedOver(c, interval, now, e)
    requires days < left ==> Considered(interval, day + days) && c(day + days).LookupRaises?
    ensures Search(c, interval, now, day, left) == None
    decreases left
  {
    if days == 0 {
    } else {
      assert PassedOver(c, interval, now, day);
      SearchFindsNone(c, interval, now, day + 1, left - 1, days - 1);
    }
  }

  lemma TodayIs(now: real, today: int)
    requires today as real * 86400.0 <= now < (today + 1) as real * 86400.0
    ensures BarsElapsed(DAY, now) == today
  {
    BoundaryAround(DAY, now);
    var e := BarsElapsed(DAY, now);
    if e < today {
      BoundaryMonotone(DAY, e + 1, today);
      assert false;
    } else if today < e {
      BoundaryMonotone(DAY, today + 1, e);
      assert false;
    }
  }

  // The target lies ahead, whatever the calendar says or fails to say.
  lemma NextAhead(calendar: Option<Calendar>, interval: Scheduled, now: real)
    ensures NextSupported(calendar, interval, now) > now
  {
    TargetAhead(interval, now);
    if !IsIntraday(interval) && calendar.Some? {
      var today, left := BarsElapsed(DAY, now), SearchLength(interval);
      var found := Search(calendar.value, interval, now, today, left);
      if found.Some? {
        SearchFindsFirst(calendar.value, interval, now, today, left, found.value);
      }
    }
  }

  // _next_daily_bar_close: ten days from today.
  method NextDaily(calendar: Option<Calendar>, now: real) returns (target: real)
    ensures target == NextSupported(calendar, D1, now)
  {
    if calendar.Some? {
      var today := BarsElapsed(DAY, now);
      for offset := 0 to 10
        invariant Search(calendar.value, D1, now, today + offset, 10 - offset)
                  == Search(calendar.value, D1, now, today, 10)
      {
        var day := calendar.value(today + offset);
        if day.LookupRaises? {
          break;
        }
        if day.NoSession? {
          continue;
        }
        if day.close + Margin(D1) as real > now {
          return day.close + Margin(D1) as real;
        }
      }
    }
    return NextIntraday(D1, now);
  }

  // _next_weekly_bar_close: the Fridays of fourteen days.
  method NextWeekly(calendar: Option<Calendar>, now: real) returns (target: real)
    ensures target == NextSupported(calendar, W1, now)
  {
    if calendar.Some? {
      var today := BarsElapsed(DAY, now);
      for offset := 0 to 14
        invariant Search(calendar.value, W1, now, today + offset, 14 - offset)
                  == Search(calendar.value, W1, now, today, 14)
      {
        if !IsFriday(today + offset) {
          continue;
        }
        var day := calendar.value(today + offset);
        if day.LookupRaises? {
          break;
        }
        if day.NoSession? {
          continue;
        }
        if day.close + Margin(W1) as real > now {
          return day.close + Margin(W1) as real;
        }
      }
    }
    return NextIntraday(W1, now);
  }

  // next_bar_close; None stands for the error on an interval the table does not have.
  method NextBarClose(calendar: Option<Calendar>, interval: Interval, now: real) returns (target: Option<real>)
    ensures target == if Supported(interval) then Some(NextSupported(calendar, interval, now)) else None
    ensures target == None <==> interval.H4? || interval.Other?
  {
    if !Supported(interval) {
      return None;
    }
    var t;
    if interval == D1 {
      t := NextDaily(calendar, now);
    } else if interval == W1 {
      t := NextWeekly(calendar, now);
    } else {
      t := NextIntraday(interval, now);
    }
    return Some(t);
  }

  // ---------------------------------------------------------------- the loop

  // One turn of the loop as the environment runs it: how long after the last turn it
  // starts, whether it is stopped at the top or during the wait, what calendar it can get,
  // how late the wait ends, whether the market is open, how long the callback runs.
  datatype Turn = Turn(idle: real, stopped: bool, calendar: Option<Calendar>, late: real, open: bool, duration: real)

  predicate ClockForward(t: Turn) {
    t.idle >= 0.0 && t.late >= 0.0 && t.duration >= 0.0
  }

  function StartOf(clock: real, t: Turn): real {
    clock + t.idle
  }

  function TargetOf(interval: Scheduled, clock: real, t: Turn): real {
    NextSupported(t.calendar, interval, StartOf(clock, t))
  }

  // The callback runs, unless this is an intraday tick outside regular hours.
  predicate Fires(interval: Interval, extended: bool, t: Turn) {
    IsIntraday(interval) && !extended ==> t.open
  }

  lemma FiresIff(interval: Scheduled, extended: bool, t: Turn)
    ensures Fires(interval, extended, t) <==> interval == D1 || interval == W1 || extended || t.open
  {
  }

  // The clock after the turn: the wait ends at the target or later.
  function ClockAfter(interval: Scheduled, extended: bool, clock: real, t: Turn): real {
    TargetOf(interval, clock, t) + t.late + (if Fires(interval, extended, t) then t.duration else 0.0)
  }

  // The targets of the turns that are not stopped, in order.
  function Targets(interval: Scheduled, extended: bool, clock: real, turns: seq<Turn>): seq<real>
    decreases |turns|
  {
    if turns == [] || turns[0].stopped then []
    else
      [TargetOf(interval, clock, turns[0])]
        + Targets(interval, extended, ClockAfter(interval, extended, clock, turns[0]), turns[1..])
  }

  // The target of the turn, if its callback runs.
  function FiredIn(interval: Scheduled, extended: bool, clock: real, t: Turn): seq<real> {
    if Fires(interval, extended, t) then [TargetOf(interval, clock, t)] else []
  }

  // The targets for which the callback ran.
  function Fired(interval: Scheduled, extended: bool, clock: real, turns: seq<Turn>): seq<real>
    decreases |turns|
  {
    if turns == [] || turns[0].stopped then []
    else
      FiredIn(interval, extended, clock, turns[0])
        + Fired(interval, extended, ClockAfter(interval, extended, clock, turns[0]), turns[1..])
  }

  // One turn that is not stopped: wait for the target, then call back unless the market
  // is closed. Also returns the clock afterwards.
  method RunTurn(interval: Scheduled, extended: bool, clock: real, t: Turn) returns (fired: seq<real>, after: real)
    ensures fired == FiredIn(interval, extended, clock, t) && after == ClockAfter(interval, extended, clock, t)
    // Ticks of daily and weekly bars always fire; intraday ones while the market is open,
    // or when trading extended hours.
    ensures var target := NextSupported(t.calendar, interval, clock + t.idle);
            if interval == D1 || interval == W1 || extended || t.open
            then fired == [target] && after == target + t.late + t.duration
            else fired == [] && after == target + t.late
  {
    var target := NextBarClose(t.calendar, interval, clock + t.idle);
    after := target.value + t.late;
    if IsIntraday(interval) && !extended && !t.open {
      return [], after;
    }
    return [target.value], after + t.duration;
  }

  lemma Prepend(a: seq<real>, b: seq<real>, c: seq<real>)
    ensures a + (b + c) == (a + b) + c
  {
  }

  // schedule_bar_close over the turns the environment grants it, for an interval of the
  // table; for any other, next_bar_close raises in the first turn.
  method ScheduleBarClose(interval: Scheduled, extended: bool, start: real, turns: seq<Turn>) returns (fired: seq<real>)
    ensures fired == Fired(interval, extended, start, turns)
  {
    fired := [];
    var clock, left := start, turns;
    while left != [] && !left[0].stopped
      invariant fired + Fired(interval, extended, clock, left) == Fired(interval, extended, start, turns)
      decreases |left|
    {
      var f, after := RunTurn(interval, extended, clock, left[0]);
      Prepend(fired, f, Fired(interval, extended, after, left[1..]));
      fired, clock, left := fired + f, after, left[1..];
    }
  }

  // ------------------------------------------------------------ no bar fires twice

  ghost predicate Increasing(s: seq<real>) {
    forall i, j :: 0 <= i < j < |s| ==> s[i] < s[j]
  }

  lemma {:induction false} TargetsAhead(interval: Scheduled, extended: bool, clock: real, turns: seq<Turn>)
    requires forall t <- turns :: ClockForward(t)
    ensures forall x <- Targets(interval, extended, clock, turns) :: x > clock
    decreases |turns|
  {
    if turns == [] || turns[0].stopped {
    } else {
      assert turns[0] in turns;
      NextAhead(turns[0].calendar, interval, StartOf(clock, turns[0]));
      TargetsAhead(interval, extended, ClockAfter(interval, extended, clock, turns[0]), turns[1..]);
    }
  }

  lemma FirstBelowRest(x: real, rest: seq<real>)
    requires Increasing(rest) && forall y <- rest :: x < y
    ensures Increasing([x] + rest)
  {
    assert forall i :: 0 <= i < |rest| ==> rest[i] in rest;
  }

  // Over any run, for every interval and whatever the calendars say from turn to turn,
  // targets increase strictly, and those that fire are among them, in order: no bar's
  // callback runs twice.
  lemma {:induction false} TargetsIncrease(interval: Scheduled, extended: bool, clock: real, turns: seq<Turn>)
    requires forall t <- turns :: ClockForward(t)
    ensures Increasing(Targets(interval, extended, clock, turns))
    ensures Increasing(Fired(interval, extended, clock, turns))
    ensures forall x <- Fired(interval, extended, clock, turns) :: x in Targets(interval, extended, clock, turns)
    decreases |turns|
  {
    if turns == [] || turns[0].stopped {
    } else {
      assert turns[0] in turns;
      var after := ClockAfter(interval, extended, clock, turns[0]);
      TargetsIncrease(interval, extended, after, turns[1..]);
      TargetsAhead(interval, extended, after, turns[1..]);
      FirstBelowRest(TargetOf(interval, clock, turns[0]), Targets(interval, extended, after, turns[1..]));
      FirstBelowRest(TargetOf(interval, clock, turns[0]), Fired(interval, extended, after, turns[1..]));
    }
  }

  // a comes before b by a positive whole number of periods.
  ghost predicate WholePeriodsBefore(interval: Scheduled, a: real, b: real) {
    exists n: int :: n >= 1 && b == a + Boundary(Period(interval), n)
  }

  ghost predicate AllAfter(interval: Scheduled, a: real, s: seq<real>) {
    forall i :: 0 <= i < |s| ==> WholePeriodsBefore(interval, a, s[i])
  }

  ghost predicate PeriodsApart(interval: Scheduled, s: seq<real>) {
    forall i, j :: 0 <= i < j < |s| ==> WholePeriodsBefore(interval, s[i], s[j])
  }

  // The targets come from the fixed-period arithmetic: intraday, or without a calendar.
  ghost predicate ByArithmetic(interval: Interval, turns: seq<Turn>) {
    IsIntraday(interval) || forall t <- turns :: t.calendar.None?
  }

  // A target is at a boundary plus the margin.
  lemma FollowingTarget(interval: Scheduled, clock: real, back: real)
    requires back >= NextIntraday(interval, clock)
    ensures WholePeriodsBefore(interval, NextIntraday(interval, clock), NextIntraday(interval, back))
  {
    var k := BarsElapsed(Period(interval), clock) + 1;
    NextTarget(interval, k, back);
    var crossed := BarsElapsed(Period(interval), back) - k;
    assert NextIntraday(interval, back) == NextIntraday(interval, clock) + Boundary(Period(interval), crossed + 1);
  }

  lemma {:induction false} LaterTargets(interval: Scheduled, extended: bool, a: real, clock: real, turns: seq<Turn>)
    requires (forall t <- turns :: ClockForward(t)) && ByArithmetic(interval, turns)
    requires forall back :: back >= clock ==> WholePeriodsBefore(interval, a, NextIntraday(interval, back))
    ensures AllAfter(interval, a, Targets(interval, extended, clock, turns))
    decreases |turns|
  {
    if turns == [] || turns[0].stopped {
    } else {
      assert turns[0] in turns;
      TargetAhead(interval, StartOf(clock, turns[0]));
      LaterTargets(interval, extended, a, ClockAfter(interval, extended, clock, turns[0]), turns[1..]);
    }
  }

  // In the arithmetic, any two targets of a run are a whole positive number of periods
  // apart.
  lemma {:induction false} TargetsPeriodsApart(interval: Scheduled, extended: bool, clock: real, turns: seq<Turn>)
    requires (forall t <- turns :: ClockForward(t)) && ByArithmetic(interval, turns)
    ensures PeriodsApart(interval, Targets(interval, extended, clock, turns))
    decreases |turns|
  {
    if turns == [] || turns[0].stopped {
    } else {
      assert turns[0] in turns;
      var target := TargetOf(interval, clock, turns[0]);
      var after := ClockAfter(interval, extended, clock, turns[0]);
      forall back | back >= after
        ensures WholePeriodsBefore(interval, target, NextIntraday(interval, back))
      {
        FollowingTarget(interval, StartOf(clock, turns[0]), back);
      }
      LaterTargets(interval, extended, target, after, turns[1..]);
      TargetsPeriodsApart(interval, extended, after, turns[1..]);
    }
  }
}
