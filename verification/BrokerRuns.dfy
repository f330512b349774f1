/** What the broker promises over whole runs: every accepted order ends in exactly one
    place, SELLs go first and are never evicted, a full queue keeps the most urgent
    orders, and an undisturbed drain is a stable sort. */
module BrokerRuns {
  import opened Trading
  import opened OrderQueue
  import opened PlainBroker

  // ------------------------------------------------- exactly-once disposition

  // How many times an item occurs in a list.
  function Count(s: seq<Item>, x: Item): nat {
    if s == [] then 0 else (if s[0] == x then 1 else 0) + Count(s[1..], x)
  }

  function Placed(b: Broker, x: Item): nat {
    Count(b.waiting, x) + Count(InFlight(b), x)
  }

  lemma {:induction false} CountAppend(a: seq<Item>, c: seq<Item>, x: Item)
    ensures Count(a + c, x) == Count(a, x) + Count(c, x)
  {
    if a == [] {
      assert a + c == c;
    } else {
      CountAppend(a[1..], c, x);
      assert (a + c)[0] == a[0] && (a + c)[1..] == a[1..] + c;
    }
  }

  lemma CountRemove(s: seq<Item>, i: nat, x: Item)
    requires i < |s|
    ensures Count(s, x) == Count(Remove(s, i), x) + Count([s[i]], x)
  {
    assert s == s[..i] + ([s[i]] + s[i + 1..]);
    CountAppend(s[..i], [s[i]] + s[i + 1..], x);
    CountAppend([s[i]], s[i + 1..], x);
    CountAppend(s[..i], s[i + 1..], x);
  }

  lemma OfferConserves(b: Broker, r: OrderRequest, x: Item)
    ensures var (b1, f) := Step(b, Offer(r));
            Count(b.waiting, x) + Count(f.accepted, x) == Count(b1.waiting, x) + Count(f.evicted, x)
  {
    var out := Enqueue(b, r).1;
    if out.Accepted? {
      CountAppend(b.waiting, [out.item], x);
    } else if out.AcceptedEvicting? {
      var w := WorstIndex(b.waiting);
      CountRemove(b.waiting, w, x);
      CountAppend(Remove(b.waiting, w), [out.item], x);
    }
  }

  lemma StepConserves(b: Broker, e: Event, x: Item)
    ensures var (b1, f) := Step(b, e);
            Placed(b, x) + Count(f.accepted, x) == Placed(b1, x) + Count(f.evicted, x) + Count(f.finished, x)
  {
    if e.Offer? {
      OfferConserves(b, e.request, x);
    } else if e.Dispatch? && b.phase.Idle? && |b.waiting| > 0 {
      CountRemove(b.waiting, LeastIndex(b.waiting), x);
    }
  }

  // Nothing is lost and nothing is made up: of every item, what was placed or has been
  // accepted is still placed, or was evicted, or has finished.
  lemma {:induction false} RunConserves(b: Broker, events: seq<Event>, x: Item)
    ensures var (b1, f) := Run(b, events);
            Placed(b, x) + Count(f.accepted, x) == Placed(b1, x) + Count(f.evicted, x) + Count(f.finished, x)
    decreases |events|
  {
    if events == [] {
    } else {
      var (b1, f1) := Step(b, events[0]);
      var (b2, f2) := Run(b1, events[1..]);
      StepConserves(b, events[0], x);
      RunConserves(b1, events[1..], x);
      CountAppend(f1.accepted, f2.accepted, x);
      CountAppend(f1.evicted, f2.evicted, x);
      CountAppend(f1.finished, f2.finished, x);
    }
  }

  // Accepted orders carry fresh, increasing sequence numbers.
  lemma {:induction false} AcceptedNumbers(b: Broker, events: seq<Event>)
    ensures var (b1, f) := Run(b, events);
            && b.nextSeq <= b1.nextSeq
            && InArrivalOrder(f.accepted)
            && (forall x <- f.accepted :: b.nextSeq <= x.seqNo < b1.nextSeq)
    decreases |events|
  {
    if events == [] {
    } else {
      var (b1, f1) := Step(b, events[0]);
      AcceptedNumbers(b1, events[1..]);
      StepNumbers(b, events[0]);
    }
  }

  lemma StepNumbers(b: Broker, e: Event)
    ensures var (b1, f) := Step(b, e);
            && b.nextSeq <= b1.nextSeq
            && (f.accepted == []
                || exists x :: f.accepted == [x] && b.nextSeq == x.seqNo && b1.nextSeq == b.nextSeq + 1)
  {
    if e.Offer? && Step(b, e).1.accepted != [] {
      assert Step(b, e).1.accepted == [Enqueue(b, e.request).1.item];
    }
  }

  lemma {:induction false} CountMember(s: seq<Item>, x: Item)
    ensures Count(s, x) > 0 <==> x in s
    ensures InArrivalOrder(s) ==> Count(s, x) <= 1
  {
    if s == [] {
    } else {
      CountMember(s[1..], x);
      assert forall i :: 1 <= i < |s| ==> s[1..][i - 1] == s[i];
    }
  }

  // From an empty broker, in every run, each accepted order is in exactly one place:
  // waiting, in flight, evicted or finished, and nothing else is anywhere.
  lemma ExactlyOnce(depth: int, events: seq<Event>, x: Item)
    ensures var (b, f) := Run(Start(depth), events);
            Count(b.waiting, x) + Count(InFlight(b), x) + Count(f.evicted, x) + Count(f.finished, x)
            == if x in f.accepted then 1 else 0
  {
    RunConserves(Start(depth), events, x);
    AcceptedNumbers(Start(depth), events);
    CountMember(Run(Start(depth), events).1.accepted, x);
  }

  // join() returns once the counter is zero: by then every accepted order was
  // evicted or has finished.
  lemma JoinedRun(depth: int, events: seq<Event>, x: Item)
    requires Active(Run(Start(depth), events).0) == 0
    requires x in Run(Start(depth), events).1.accepted
    ensures var f := Run(Start(depth), events).1; (x in f.evicted) != (x in f.finished)
  {
    var f := Run(Start(depth), events).1;
    ExactlyOnce(depth, events, x);
    CountMember(f.evicted, x);
    CountMember(f.finished, x);
  }

  // ------------------------------------------------------------ priority classes

  // The items of one priority class, in list order.
  function Class(s: seq<Item>, p: nat): seq<Item> {
    if s == [] then []
    else if s[0].priority == p then [s[0]] + Class(s[1..], p)
    else Class(s[1..], p)
  }

  lemma {:induction false} ClassMembers(s: seq<Item>, p: nat)
    ensures forall x :: x in Class(s, p) <==> x in s && x.priority == p
  {
    if s == [] {
    } else {
      ClassMembers(s[1..], p);
    }
  }

  lemma {:induction false} ClassAppend(a: seq<Item>, c: seq<Item>, p: nat)
    ensures Class(a + c, p) == Class(a, p) + Class(c, p)
  {
    if a == [] {
      assert a + c == c;
    } else {
      ClassAppend(a[1..], c, p);
      assert (a + c)[0] == a[0] && (a + c)[1..] == a[1..] + c;
    }
  }

  lemma ClassSplit(s: seq<Item>, i: nat, p: nat)
    requires i < |s|
    ensures Class(s, p) == Class(s[..i], p) + Class([s[i]], p) + Class(s[i + 1..], p)
    ensures Class(Remove(s, i), p) == Class(s[..i], p) + Class(s[i + 1..], p)
  {
    assert s == s[..i] + ([s[i]] + s[i + 1..]);
    ClassAppend(s[..i], [s[i]] + s[i + 1..], p);
    ClassAppend([s[i]], s[i + 1..], p);
    ClassAppend(s[..i], s[i + 1..], p);
  }

  // Deleting an item of another class leaves a class as it is.
  lemma ClassRemoveOther(s: seq<Item>, i: nat, p: nat)
    requires i < |s| && s[i].priority != p
    ensures Class(Remove(s, i), p) == Class(s, p)
  {
    ClassSplit(s, i, p);
    assert Class([s[i]], p) == Class([], p);
  }

  // Deleting the first item of a class takes the head off the class.
  lemma ClassRemoveFirst(s: seq<Item>, i: nat, p: nat)
    requires i < |s| && s[i].priority == p && forall j :: 0 <= j < i ==> s[j].priority != p
    ensures Class(s, p) == [s[i]] + Class(Remove(s, i), p)
  {
    ClassSplit(s, i, p);
    ClassAbsent(s[..i], p);
    ClassSingle(s[i]);
  }

  lemma ClassSingle(x: Item)
    ensures Class([x], x.priority) == [x]
  {
    assert [x][1..] == [];
  }

  lemma {:induction false} ClassAbsent(s: seq<Item>, p: nat)
    requires forall j :: 0 <= j < |s| ==> s[j].priority != p
    ensures Class(s, p) == []
  {
    if s == [] {
    } else {
      ClassAbsent(s[1..], p);
    }
  }

  // The least item of a list in arrival order is the first of the best class.
  lemma LeastIsFirstOfBest(s: seq<Item>)
    requires |s| > 0 && InArrivalOrder(s)
    ensures var m := LeastIndex(s);
            && (forall j :: 0 <= j < |s| ==> s[m].priority <= s[j].priority)
            && (forall j :: 0 <= j < m ==> s[j].priority != s[m].priority)
  {
    var m := LeastIndex(s);
    forall j | 0 <= j < |s|
      ensures s[m].priority <= s[j].priority
      ensures j < m ==> s[j].priority != s[m].priority
    {
      assert !Before(s[j], s[m]);
      if j < m {
        assert s[j].seqNo < s[m].seqNo;
      }
    }
  }

  // ------------------------------------------------------------- SELLs go first

  ghost predicate SameWhereBothReach(a: seq<Item>, c: seq<Item>) {
    forall i :: 0 <= i < |a| && i < |c| ==> a[i] == c[i]
  }

  // One step either dispatches the first waiting SELL, or leaves the waiting SELLs
  // where they are, adding at most a new one behind them.
  lemma OfferOnSells(b: Broker, r: OrderRequest)
    requires Inv(b)
    ensures var (b1, out) := Enqueue(b, r);
            Class(b1.waiting, 0) == Class(b.waiting, 0)
              + (if r.side == Sell && (out.Accepted? || out.AcceptedEvicting?) then [out.item] else [])
  {
    var (b1, out) := Enqueue(b, r);
    if out.Accepted? {
      ClassAppend(b.waiting, [out.item], 0);
    } else if out.AcceptedEvicting? {
      var w := WorstIndex(b.waiting);
      ClassRemoveOther(b.waiting, w, 0);
      ClassAppend(Remove(b.waiting, w), [out.item], 0);
    }
  }

  lemma DispatchOnSells(b: Broker)
    requires Inv(b) && b.phase.Idle? && Class(b.waiting, 0) != []
    ensures var (b1, f) := Step(b, Dispatch);
            |f.started| == 1 && Class(b.waiting, 0) == f.started + Class(b1.waiting, 0)
  {
    ClassMembers(b.waiting, 0);
    assert Class(b.waiting, 0)[0] in b.waiting;
    LeastIsFirstOfBest(b.waiting);
    ClassRemoveFirst(b.waiting, LeastIndex(b.waiting), 0);
  }

  lemma StepOnSells(b: Broker, e: Event)
    requires Inv(b)
    ensures var (b1, f) := Step(b, e);
            var sells := Class(b.waiting, 0);
            && (f.started == [] ==> sells <= Class(b1.waiting, 0))
            && (f.started != [] && sells != [] ==>
                  |f.started| == 1 && sells == f.started + Class(b1.waiting, 0))
  {
    if e.Offer? {
      OfferOnSells(b, e.request);
    } else if e.Dispatch? && b.phase.Idle? && Class(b.waiting, 0) != [] {
      DispatchOnSells(b);
    }
  }

  // Whatever arrives later and however the run interleaves, the next dispatches are
  // exactly the SELLs waiting now, in arrival order.
  lemma {:induction false} SellsDispatchedFirst(b: Broker, events: seq<Event>)
    requires Inv(b)
    ensures SameWhereBothReach(Run(b, events).1.started, Class(b.waiting, 0))
    decreases |events|
  {
    if events == [] {
    } else {
      var (b1, f1) := Step(b, events[0]);
      StepKeepsInv(b, events[0]);
      StepOnSells(b, events[0]);
      SellsDispatchedFirst(b1, events[1..]);
    }
  }

  // A SELL accepted now is dispatched after exactly the SELLs waiting before it.
  lemma AcceptedSellTurn(b: Broker, r: OrderRequest, events: seq<Event>)
    requires Inv(b) && r.side == Sell
    requires Enqueue(b, r).1.Accepted? || Enqueue(b, r).1.AcceptedEvicting?
    ensures var (b1, out) := Enqueue(b, r);
            var started := Run(b1, events).1.started;
            var ahead := Class(b.waiting, 0);
            && SameWhereBothReach(started, ahead + [out.item])
            && (|started| > |ahead| ==> started[|ahead|] == out.item)
  {
    var (b1, out) := Enqueue(b, r);
    StepKeepsInv(b, Offer(r));
    SellsDispatchedFirst(b1, events);
    OfferOnSells(b, r);
  }

  // Two orders are the same decision: same ticker, same side, same bar.
  ghost predicate SameDecision(a: OrderRequest, b: OrderRequest) {
    a.ticker == b.ticker && a.side == b.side && a.barClose == b.barClose
  }

  // An order is a duplicate exactly when the same decision is already waiting, or is being
  // processed; not any more once it is in the callback.
  lemma DedupedIff(b: Broker, r: OrderRequest)
    ensures Enqueue(b, r).1 == Deduped <==>
            || (exists x <- b.waiting :: SameDecision(x.request, r))
            || (b.phase.Processing? && SameDecision(b.phase.item.request, r))
  {
    FreshNotDeduped(b, r);
    assert forall x <- b.waiting :: KeyOf(x.request) in KeySet(b.waiting);
  }

  // What an enqueue does besides: a duplicate changes nothing, a refusal uses up a number,
  // and an accepted order goes behind all that wait, as it was given, under the next
  // number; nothing else moves, but for the victim taken out.
  lemma EnqueueEffect(b: Broker, r: OrderRequest)
    ensures var (b1, out) := Enqueue(b, r);
            && b1.depth == b.depth && b1.phase == b.phase
            && (out.Deduped? ==> b1 == b)
            && (!out.Deduped? ==> b1.nextSeq == b.nextSeq + 1)
            && (out.Refused? ==> b1.waiting == b.waiting)
            && (out.Accepted? || out.AcceptedEvicting? ==> out.item.request == r && out.item.seqNo == b.nextSeq)
            && (out.Accepted? ==> b1.waiting == b.waiting + [out.item])
            && (out.AcceptedEvicting? ==> exists i | 0 <= i < |b.waiting| ::
                  b.waiting[i] == out.victim && b1.waiting == b.waiting[..i] + b.waiting[i + 1..] + [out.item])
  {
  }

  // An order that is no duplicate is simply accepted while fewer than depth are active.
  lemma AcceptedIff(b: Broker, r: OrderRequest)
    ensures Enqueue(b, r).1.Accepted? <==>
            Enqueue(b, r).1 != Deduped && |b.waiting| + (if b.phase.Idle? then 0 else 1) < b.depth
  {
  }

  // When an order is refused for fullness: exactly when the queue is full and no
  // waiting order is of a strictly worse class. For a SELL, that is: no BUY waits.
  lemma RefusedIff(b: Broker, r: OrderRequest)
    requires Inv(b)
    ensures Enqueue(b, r).1.Refused? <==>
            && KeyOf(r) !in Held(b)
            && Active(b) >= b.depth
            && (forall x <- b.waiting :: x.priority <= OrderPriority(r.side, r.interval))
    ensures r.side == Sell && Enqueue(b, r).1.Refused? ==> forall x <- b.waiting :: x.request.side == Sell
  {
    if |b.waiting| > 0 {
      assert b.waiting[WorstIndex(b.waiting)] in b.waiting;
    }
  }

  // A SELL can be refused with no order waiting at all: at depth one, while the drain is
  // busy with an order accepted before it.
  lemma SellRefusedWhileBusy(buy: OrderRequest, sell: OrderRequest)
    requires buy.side == Buy && sell.side == Sell
    ensures var b := Run(Start(1), [Offer(buy), Dispatch]).0;
            b.waiting == [] && Enqueue(b, sell).1 == Refused
  {
    BusyWithFirst(buy);
    assert KeyOf(sell) != KeyOf(buy);
  }

  lemma BusyWithFirst(buy: OrderRequest)
    ensures Run(Start(1), [Offer(buy), Dispatch]).0
         == Broker(1, 1, [], Processing(Item(OrderPriority(buy.side, buy.interval), 0, buy)))
  {
    var item := Item(OrderPriority(buy.side, buy.interval), 0, buy);
    var b1 := Broker(1, 1, [item], Idle);
    assert KeySet([]) == {};
    assert Step(Start(1), Offer(buy)).0 == b1;
    assert Step(b1, Dispatch).0 == b1.(waiting := [], phase := Processing(item)) by {
      assert Remove([item], 0) == [];
    }
    assert [Offer(buy), Dispatch][1..] == [Dispatch];
    RunSingle(b1, Dispatch);
  }

  lemma RunSingle(b: Broker, e: Event)
    ensures Run(b, [e]).0 == Step(b, e).0
  {
    assert [e][1..] == [];
  }

  lemma EvictionShape(b: Broker, r: OrderRequest)
    requires Enqueue(b, r).1.AcceptedEvicting?
    ensures var (b1, out) := Enqueue(b, r);
            && Active(b) >= b.depth && |b.waiting| > 0 && Room(b1) == Room(b)
            && out.victim == b.waiting[WorstIndex(b.waiting)]
            && b1.waiting == Remove(b.waiting, WorstIndex(b.waiting)) + [out.item]
            && out.item.seqNo == b.nextSeq
            && out.item.priority == OrderPriority(r.side, r.interval) < out.victim.priority
  {
  }

  // Without the item that heads the worst class, all others are left, in their order.
  lemma WorstRemoved(s: seq<Item>)
    requires s != [] && InArrivalOrder(s)
    ensures var w := WorstIndex(s);
            && s[w] !in Remove(s, w)
            && (forall x <- s :: x.priority < s[w].priority || (x.priority == s[w].priority && s[w].seqNo <= x.seqNo))
            && (forall x <- s :: x != s[w] ==> x in Remove(s, w))
  {
    var w := WorstIndex(s);
    RemoveMembers(s, w);
    RemoveOrdered(s, w);
    forall x | x in s
      ensures x.priority < s[w].priority || (x.priority == s[w].priority && s[w].seqNo <= x.seqNo)
      ensures x != s[w] ==> x in Remove(s, w)
    {
      var j :| 0 <= j < |s| && s[j] == x;
      assert j < w ==> x.priority < s[w].priority;
    }
  }

  // The victim of an eviction is the oldest order of the worst waiting class, it is
  // strictly less urgent than the newcomer, and so it is never a SELL.
  lemma VictimIsOldestOfWorst(b: Broker, r: OrderRequest)
    requires Inv(b) && Enqueue(b, r).1.AcceptedEvicting?
    ensures var (b1, out) := Enqueue(b, r);
            && out.victim in b.waiting && out.victim !in b1.waiting
            && out.victim.priority > out.item.priority
            && out.victim.request.side == Buy
            && (forall x <- b.waiting :: x.priority < out.victim.priority
                  || (x.priority == out.victim.priority && out.victim.seqNo <= x.seqNo))
            && (forall x <- b.waiting :: x != out.victim ==> x in b1.waiting)
  {
    var out := Enqueue(b, r).1;
    EvictionShape(b, r);
    WorstRemoved(b.waiting);
    assert Numbered(out.victim, b.nextSeq);
  }

  lemma {:induction false} SellNeverEvicted(b: Broker, events: seq<Event>)
    requires Inv(b)
    ensures forall x <- Run(b, events).1.evicted :: x.request.side == Buy
    decreases |events|
  {
    if events == [] {
    } else {
      StepKeepsInv(b, events[0]);
      if events[0].Offer? && Enqueue(b, events[0].request).1.AcceptedEvicting? {
        VictimIsOldestOfWorst(b, events[0].request);
      }
      SellNeverEvicted(Step(b, events[0]).0, events[1..]);
    }
  }

  // ------------------------------------------------------ draining without arrivals

  // The order in which an undisturbed drain takes a list: the least item, again and again.
  function DrainOrder(s: seq<Item>): seq<Item>
    decreases |s|
  {
    if s == [] then [] else [s[LeastIndex(s)]] + DrainOrder(Remove(s, LeastIndex(s)))
  }

  ghost predicate ByPriority(s: seq<Item>) {
    forall i, j :: 0 <= i < j < |s| ==> s[i].priority <= s[j].priority
  }

  lemma {:induction false} DrainOrderMembers(s: seq<Item>, x: Item)
    ensures Count(DrainOrder(s), x) == Count(s, x)
    decreases |s|
  {
    if s == [] {
    } else {
      var m := LeastIndex(s);
      var rest := Remove(s, m);
      CountRemove(s, m, x);
      DrainOrderMembers(rest, x);
      CountAppend([s[m]], DrainOrder(rest), x);
    }
  }

  lemma {:induction false} DrainOrderByPriority(s: seq<Item>)
    ensures ByPriority(DrainOrder(s))
    decreases |s|
  {
    if s == [] {
    } else {
      var m := LeastIndex(s);
      var rest := Remove(s, m);
      RemoveMembers(s, m);
      DrainOrderByPriority(rest);
      forall i | 0 <= i < |DrainOrder(rest)|
        ensures s[m].priority <= DrainOrder(rest)[i].priority
      {
        var x := DrainOrder(rest)[i];
        DrainOrderMembers(rest, x);
        CountMember(DrainOrder(rest), x);
        CountMember(rest, x);
      }
    }
  }

  lemma {:induction false} DrainOrderKeepsClass(s: seq<Item>, p: nat)
    requires InArrivalOrder(s)
    ensures Class(DrainOrder(s), p) == Class(s, p)
    decreases |s|
  {
    if s == [] {
    } else {
      var m := LeastIndex(s);
      var rest := Remove(s, m);
      RemoveOrdered(s, m);
      DrainOrderKeepsClass(rest, p);
      ClassAppend([s[m]], DrainOrder(rest), p);
      if s[m].priority == p {
        LeastIsFirstOfBest(s);
        ClassRemoveFirst(s, m, p);
      } else {
        ClassRemoveOther(s, m, p);
      }
    }
  }

  // It is the stable sort by priority: the same orders, by class, and each class in
  // its arrival order.
  lemma DrainOrderIsStableSort(s: seq<Item>)
    requires InArrivalOrder(s)
    ensures forall x :: Count(DrainOrder(s), x) == Count(s, x)
    ensures ByPriority(DrainOrder(s))
    ensures forall p: nat :: Class(DrainOrder(s), p) == Class(s, p)
  {
    forall x
      ensures Count(DrainOrder(s), x) == Count(s, x)
    {
      DrainOrderMembers(s, x);
    }
    DrainOrderByPriority(s);
    forall p: nat
      ensures Class(DrainOrder(s), p) == Class(s, p)
    {
      DrainOrderKeepsClass(s, p);
    }
  }

  lemma StepFollowsDrainOrder(b: Broker, e: Event)
    requires !e.Offer?
    ensures var (b1, f) := Step(b, e); DrainOrder(b.waiting) == f.started + DrainOrder(b1.waiting)
  {
    var (b1, f) := Step(b, e);
    if e.Dispatch? && b.phase.Idle? && b.waiting != [] {
      assert f.started == [b.waiting[LeastIndex(b.waiting)]];
    } else {
      assert f.started == [] && b1.waiting == b.waiting;
    }
  }

  // In a run without arrivals the dispatches walk down that order, whatever the
  // outcome of each order is; what they have not reached is still to come.
  lemma {:induction false} DispatchesFollowDrainOrder(b: Broker, events: seq<Event>)
    requires forall e <- events :: !e.Offer?
    ensures var (b1, f) := Run(b, events); DrainOrder(b.waiting) == f.started + DrainOrder(b1.waiting)
    decreases |events|
  {
    if events == [] {
    } else {
      var (b1, f1) := Step(b, events[0]);
      var (b2, f2) := Run(b1, events[1..]);
      StepFollowsDrainOrder(b, events[0]);
      DispatchesFollowDrainOrder(b1, events[1..]);
      assert f1.started + (f2.started + DrainOrder(b2.waiting)) == (f1.started + f2.started) + DrainOrder(b2.waiting);
    }
  }

  lemma RunCons(b: Broker, e: Event, rest: seq<Event>)
    ensures var (c, g) := Step(b, e);
            var (d, h) := Run(c, rest);
            Run(b, [e] + rest) == (d, g.Then(h))
  {
    assert ([e] + rest)[1..] == rest;
  }

  lemma NothingThen(f: Effects)
    ensures NOTHING.Then(f) == f
  {
  }

  // A run of two parts is the second part run from where the first ended.
  lemma {:induction false} RunAppend(b: Broker, first: seq<Event>, second: seq<Event>)
    ensures var (b1, f1) := Run(b, first);
            var (b2, f2) := Run(b1, second);
            Run(b, first + second) == (b2, f1.Then(f2))
    decreases |first|
  {
    var (b1, f1) := Run(b, first);
    var (b2, f2) := Run(b1, second);
    if first == [] {
      assert first + second == second;
      NothingThen(f2);
    } else {
      var e, rest := first[0], first[1..];
      var (c, g) := Step(b, e);
      assert first == [e] + rest && first + second == [e] + (rest + second);
      RunAppend(c, rest, second);
      RunCons(b, e, rest);
      RunCons(b, e, rest + second);
      ThenAssociative(g, Run(c, rest).1, f2);
    }
  }

  lemma ThenAssociative(f: Effects, g: Effects, h: Effects)
    ensures f.Then(g).Then(h) == f.Then(g.Then(h))
  {
  }

  // A step of the drain that its place in the loop allows and that has work to do.
  predicate Enabled(b: Broker, e: Event) {
    match e
    case Offer(_) => false
    case Dispatch => b.phase.Idle? && |b.waiting| > 0
    case ProcessDone => b.phase.Processing?
    case ProcessRaised => b.phase.Processing?
    case CallbackDone => b.phase.Calling?
  }

  // A run of drain steps, each of them enabled where it is taken.
  predicate DrainRun(b: Broker, events: seq<Event>)
    decreases |events|
  {
    events != [] ==> Enabled(b, events[0]) && DrainRun(Step(b, events[0]).0, events[1..])
  }

  // The steps the drain can still take: three for each waiting order, fewer for the one
  // in flight.
  function StepsLeft(b: Broker): nat {
    3 * |b.waiting| + (match b.phase case Idle => 0 case Processing(_) => 2 case Calling(_) => 1)
  }

  // The orders the drain has still to finish, in the order in which it will.
  function Outstanding(b: Broker): seq<Item> {
    InFlight(b) + DrainOrder(b.waiting)
  }

  lemma EnabledStep(b: Broker, e: Event)
    requires Enabled(b, e)
    ensures var (b1, f) := Step(b, e);
            StepsLeft(b1) < StepsLeft(b) && Outstanding(b) == f.finished + Outstanding(b1)
  {
    var (b1, f) := Step(b, e);
    if e.Dispatch? {
      assert DrainOrder(b.waiting) == InFlight(b1) + DrainOrder(b1.waiting);
    } else {
      assert InFlight(b) == f.finished + InFlight(b1);
    }
  }

  lemma {:induction false} DrainInOrder(b: Broker, events: seq<Event>)
    requires DrainRun(b, events)
    ensures var (b1, f) := Run(b, events);
            |events| <= StepsLeft(b) - StepsLeft(b1) && Outstanding(b) == f.finished + Outstanding(b1)
    decreases |events|
  {
    if events == [] {
      assert [] + Outstanding(b) == Outstanding(b);
    } else {
      var (b1, f1) := Step(b, events[0]);
      var (b2, f2) := Run(b1, events[1..]);
      EnabledStep(b, events[0]);
      DrainInOrder(b1, events[1..]);
      ConcatAssociative(f1.finished, f2.finished, Outstanding(b2));
    }
  }

  lemma ConcatAssociative(a: seq<Item>, b: seq<Item>, c: seq<Item>)
    ensures a + (b + c) == (a + b) + c
  {
  }

  // The drain has nothing it can do.
  ghost predicate AtRest(b: Broker) {
    forall e :: !Enabled(b, e)
  }

  lemma AtRestIff(b: Broker)
    ensures AtRest(b) <==> Active(b) == 0
  {
    assert b.phase.Processing? ==> Enabled(b, ProcessDone);
    assert b.phase.Calling? ==> Enabled(b, CallbackDone);
    assert b.phase.Idle? && |b.waiting| > 0 ==> Enabled(b, Dispatch);
  }

  // Progress, from any state and however each order turns out: without arrivals the drain
  // takes only so many steps; what it has finished and what is still outstanding is what
  // was outstanding, in order; and it comes to rest exactly when everything outstanding
  // has been finished, so that join() returns.
  lemma DrainFinishesEverything(b: Broker, events: seq<Event>)
    requires DrainRun(b, events)
    ensures var (b1, f) := Run(b, events);
            && |events| <= StepsLeft(b)
            && Outstanding(b) == f.finished + Outstanding(b1)
            && (AtRest(b1) <==> Active(b1) == 0)
            && (AtRest(b1) <==> f.finished == Outstanding(b))
  {
    DrainInOrder(b, events);
    var b1 := Run(b, events).0;
    AtRestIff(b1);
    OutstandingSize(b1);
  }

  lemma OutstandingSize(b: Broker)
    ensures |Outstanding(b)| == Active(b)
  {
    DrainOrderSize(b.waiting);
  }

  lemma {:induction false} DrainOrderSize(s: seq<Item>)
    ensures |DrainOrder(s)| == |s|
    decreases |s|
  {
    if s == [] {
    } else {
      DrainOrderSize(Remove(s, LeastIndex(s)));
    }
  }

  // ------------------------------------------------------ a full queue keeps the best

  function Priorities(s: seq<Item>): multiset<nat> {
    if s == [] then multiset{} else multiset{s[0].priority} + Priorities(s[1..])
  }

  lemma {:induction false} PrioritiesSize(s: seq<Item>)
    ensures |Priorities(s)| == |s|
  {
    if s == [] {
    } else {
      PrioritiesSize(s[1..]);
    }
  }

  lemma UnionAssociative(a: multiset<nat>, b: multiset<nat>, c: multiset<nat>)
    ensures a + (b + c) == (a + b) + c
  {
  }

  lemma {:induction false} PrioritiesAppend(a: seq<Item>, c: seq<Item>)
    ensures Priorities(a + c) == Priorities(a) + Priorities(c)
  {
    if a == [] {
      assert a + c == c;
    } else {
      var m, rest := multiset{a[0].priority}, a[1..];
      assert a + c == [a[0]] + (rest + c);
      PrioritiesAppend(rest, c);
      UnionAssociative(m, Priorities(rest), Priorities(c));
      assert Priorities([a[0]] + (rest + c)) == m + Priorities(rest + c) by {
        assert ([a[0]] + (rest + c))[1..] == rest + c;
      }
    }
  }

  lemma UnionRotate(a: multiset<nat>, m: multiset<nat>, c: multiset<nat>)
    ensures (a + m) + c == (a + c) + m
  {
  }

  lemma PrioritiesPush(s: seq<Item>, x: Item)
    ensures Priorities(s + [x]) == Priorities(s) + multiset{x.priority}
  {
    PrioritiesAppend(s, [x]);
    assert [x][1..] == [];
    assert Priorities([x]) == multiset{x.priority};
  }

  lemma PrioritiesMiddle(a: seq<Item>, x: Item, c: seq<Item>)
    ensures Priorities((a + [x]) + c) == Priorities(a + c) + multiset{x.priority}
  {
    PrioritiesAppend(a + [x], c);
    PrioritiesPush(a, x);
    PrioritiesAppend(a, c);
    UnionRotate(Priorities(a), multiset{x.priority}, Priorities(c));
  }

  lemma SplitAt(s: seq<Item>, i: nat)
    requires i < |s|
    ensures s == (s[..i] + [s[i]]) + s[i + 1..]
  {
  }

  lemma PrioritiesRemove(s: seq<Item>, i: nat)
    requires i < |s|
    ensures Priorities(s) == Priorities(Remove(s, i)) + multiset{s[i].priority}
  {
    SplitAt(s, i);
    PrioritiesMiddle(s[..i], s[i], s[i + 1..]);
  }

  lemma {:induction false} PriorityMember(s: seq<Item>, p: nat)
    requires p in Priorities(s)
    ensures exists x <- s :: x.priority == p
  {
    if p == s[0].priority {
      assert s[0] in s;
    } else {
      PriorityMember(s[1..], p);
      var x :| x in s[1..] && x.priority == p;
      assert x in s;
    }
  }

  // kept is the k least elements of offered (all of them while there are fewer than k).
  ghost predicate IsLeastK(k: nat, kept: multiset<nat>, offered: multiset<nat>) {
    && kept <= offered
    && |kept| == (if |offered| < k then |offered| else k)
    && forall x, y | x in kept && y in offered - kept :: x <= y
  }

  // Enqueue a list of requests one after the other; the second result holds the
  // priorities of those that were not duplicates.
  function EnqueueAll(b: Broker, requests: seq<OrderRequest>): (Broker, multiset<nat>) {
    if requests == [] then (b, multiset{})
    else
      var n := |requests| - 1;
      var (b1, offered) := EnqueueAll(b, requests[..n]);
      var (b2, out) := Enqueue(b1, requests[n]);
      (b2, Offered(offered, requests[n], out))
  }

  lemma KeepLeastK(k: nat, kept: multiset<nat>, offered: multiset<nat>, worst: nat, p: nat)
    requires IsLeastK(k, kept, offered) && |kept| == k && worst in kept
    requires forall x <- kept :: x <= worst
    ensures p >= worst ==> IsLeastK(k, kept, offered + multiset{p})
    ensures p < worst ==> IsLeastK(k, kept - multiset{worst} + multiset{p}, offered + multiset{p})
  {
    if p >= worst {
      assert offered + multiset{p} - kept == (offered - kept) + multiset{p};
    } else {
      var kept' := kept - multiset{worst} + multiset{p};
      assert offered + multiset{p} - kept' == (offered - kept) + multiset{worst};
    }
  }

  lemma WorstPriority(s: seq<Item>)
    requires |s| > 0
    ensures s[WorstIndex(s)].priority in Priorities(s)
    ensures forall x <- Priorities(s) :: x <= s[WorstIndex(s)].priority
  {
    var w := WorstIndex(s);
    PrioritiesRemove(s, w);
    forall p | p in Priorities(s)
      ensures p <= s[w].priority
    {
      PriorityMember(s, p);
    }
  }

  lemma FewerThanDepth(k: nat, kept: multiset<nat>, offered: multiset<nat>, p: nat)
    requires IsLeastK(k, kept, offered) && |kept| < k
    ensures kept == offered
    ensures IsLeastK(k, kept + multiset{p}, offered + multiset{p})
  {
    assert offered == kept + (offered - kept);
    assert |offered - kept| == 0;
    assert offered + multiset{p} - (kept + multiset{p}) == multiset{};
  }

  // How many orders may wait beside the one in flight.
  function Room(b: Broker): nat {
    if b.depth <= |InFlight(b)| then 0 else b.depth - |InFlight(b)|
  }

  // The queue holds the least of what was offered, as many as there is room for.
  ghost predicate HoldsLeast(b: Broker, offered: multiset<nat>) {
    IsLeastK(Room(b), Priorities(b.waiting), offered)
  }

  lemma EvictionSwapsPriorities(b: Broker, r: OrderRequest)
    requires Enqueue(b, r).1.AcceptedEvicting?
    ensures var (b1, out) := Enqueue(b, r);
            Priorities(b1.waiting)
            == Priorities(b.waiting) - multiset{out.victim.priority} + multiset{out.item.priority}
  {
    var out := Enqueue(b, r).1;
    var w := WorstIndex(b.waiting);
    PrioritiesRemove(b.waiting, w);
    PrioritiesPush(Remove(b.waiting, w), out.item);
  }

  lemma FullRoom(b: Broker)
    requires Inv(b) && Active(b) >= b.depth
    ensures |Priorities(b.waiting)| == Room(b)
  {
    PrioritiesSize(b.waiting);
  }

  lemma EvictionKeepsLeast(b: Broker, r: OrderRequest, offered: multiset<nat>)
    requires Inv(b) && HoldsLeast(b, offered) && Enqueue(b, r).1.AcceptedEvicting?
    ensures HoldsLeast(Enqueue(b, r).0, offered + multiset{OrderPriority(r.side, r.interval)})
  {
    EvictionShape(b, r);
    FullRoom(b);
    WorstPriority(b.waiting);
    EvictionSwapsPriorities(b, r);
    var worst := b.waiting[WorstIndex(b.waiting)].priority;
    KeepLeastK(Room(b), Priorities(b.waiting), offered, worst, OrderPriority(r.side, r.interval));
  }

  lemma RefusalShape(b: Broker, r: OrderRequest)
    requires Enqueue(b, r).1.Refused?
    ensures var b1 := Enqueue(b, r).0;
            && Active(b) >= b.depth && b1.waiting == b.waiting && Room(b1) == Room(b)
            && (b.waiting != [] ==> b.waiting[WorstIndex(b.waiting)].priority <= OrderPriority(r.side, r.interval))
  {
  }

  lemma RefusalKeepsLeast(b: Broker, r: OrderRequest, offered: multiset<nat>)
    requires Inv(b) && HoldsLeast(b, offered) && Enqueue(b, r).1.Refused?
    ensures HoldsLeast(Enqueue(b, r).0, offered + multiset{OrderPriority(r.side, r.interval)})
  {
    RefusalShape(b, r);
    FullRoom(b);
    if b.waiting != [] {
      WorstPriority(b.waiting);
      var worst := b.waiting[WorstIndex(b.waiting)].priority;
      KeepLeastK(Room(b), Priorities(b.waiting), offered, worst, OrderPriority(r.side, r.interval));
    }
  }

  lemma EnqueueKeepsLeast(b: Broker, r: OrderRequest, offered: multiset<nat>)
    requires Inv(b) && HoldsLeast(b, offered) && KeyOf(r) !in Held(b)
    ensures HoldsLeast(Enqueue(b, r).0, offered + multiset{OrderPriority(r.side, r.interval)})
  {
    var out := Enqueue(b, r).1;
    PrioritiesSize(b.waiting);
    if out.Accepted? {
      PrioritiesPush(b.waiting, out.item);
      FewerThanDepth(Room(b), Priorities(b.waiting), offered, out.item.priority);
    } else if out.AcceptedEvicting? {
      EvictionKeepsLeast(b, r, offered);
    } else {
      RefusalKeepsLeast(b, r, offered);
    }
  }

  // The priorities offered so far, with those of one more request unless it is a duplicate.
  function Offered(offered: multiset<nat>, r: OrderRequest, out: Outcome): multiset<nat> {
    if out == Deduped then offered else offered + multiset{OrderPriority(r.side, r.interval)}
  }

  lemma OneMoreKeepsLeast(b: Broker, r: OrderRequest, before: multiset<nat>, offered: multiset<nat>)
    requires Inv(b) && HoldsLeast(b, before + offered)
    ensures HoldsLeast(Enqueue(b, r).0, before + Offered(offered, r, Enqueue(b, r).1))
  {
    FreshNotDeduped(b, r);
    if Enqueue(b, r).1 != Deduped {
      EnqueueKeepsLeast(b, r, before + offered);
      UnionAssociative(before, offered, multiset{OrderPriority(r.side, r.interval)});
    }
  }

  lemma EnqueueKeepsPlace(b: Broker, r: OrderRequest)
    ensures Enqueue(b, r).0.depth == b.depth && Enqueue(b, r).0.phase == b.phase
  {
  }

  // Online top-k: from any state, an order in flight or not, after any requests and no
  // dispatch, the waiting priorities are exactly the least of those waiting before and
  // those offered since, as many as the depth leaves room for.
  lemma {:induction false} WaitingIsLeastK(b: Broker, requests: seq<OrderRequest>)
    requires Inv(b)
    ensures var (b1, offered) := EnqueueAll(b, requests);
            && Inv(b1) && b1.depth == b.depth && b1.phase == b.phase
            && HoldsLeast(b1, Priorities(b.waiting) + offered)
  {
    if requests == [] {
      PrioritiesSize(b.waiting);
    } else {
      var n := |requests| - 1;
      WaitingIsLeastK(b, requests[..n]);
      var (b1, offered) := EnqueueAll(b, requests[..n]);
      EnqueueKeepsInv(b1, requests[n]);
      EnqueueKeepsPlace(b1, requests[n]);
      OneMoreKeepsLeast(b1, requests[n], Priorities(b.waiting), offered);
    }
  }

  lemma LeastKAtMost(k: nat, kept: multiset<nat>, other: multiset<nat>, offered: multiset<nat>, p: nat)
    requires IsLeastK(k, kept, offered) && IsLeastK(k, other, offered)
    ensures kept[p] <= other[p]
  {
    if kept[p] > other[p] {
      // p stands in kept and was left out of other: so nothing left out of kept is
      // below p, and nothing in other is above p.
      assert p in offered - other;
      forall q
        ensures other[q] <= kept[q]
      {
        if q < p {
          assert q !in offered - kept;
        } else if q > p {
          assert q !in other;
        }
      }
      SubsetSize(other + multiset{p}, kept);
    }
  }

  // The k least elements are determined: there is only one such multiset.
  lemma LeastKUnique(k: nat, kept: multiset<nat>, other: multiset<nat>, offered: multiset<nat>)
    requires IsLeastK(k, kept, offered) && IsLeastK(k, other, offered)
    ensures kept == other
  {
    forall p
      ensures kept[p] == other[p]
    {
      LeastKAtMost(k, kept, other, offered, p);
      LeastKAtMost(k, other, kept, offered, p);
    }
  }

  lemma SubsetSize(a: multiset<nat>, b: multiset<nat>)
    requires a <= b
    ensures |a| <= |b|
  {
    assert b == a + (b - a);
  }

  ghost predicate DistinctRequests(b: Broker, requests: seq<OrderRequest>) {
    && (forall i, j :: 0 <= i < j < |requests| ==> KeyOf(requests[i]) != KeyOf(requests[j]))
    && (forall r <- requests :: KeyOf(r) !in Held(b))
  }

  function AllPriorities(requests: seq<OrderRequest>): multiset<nat> {
    if requests == [] then multiset{}
    else
      var n := |requests| - 1;
      AllPriorities(requests[..n]) + multiset{OrderPriority(requests[n].side, requests[n].interval)}
  }

  // Enqueueing holds no key but those held before and the request's own.
  lemma HeldAfter(b: Broker, r: OrderRequest)
    ensures Held(Enqueue(b, r).0) <= Held(b) + {KeyOf(r)}
  {
    var (b1, out) := Enqueue(b, r);
    forall x | x in b1.waiting
      ensures KeyOf(x.request) in Held(b) + {KeyOf(r)}
    {
      if out.AcceptedEvicting? {
        RemoveMembers(b.waiting, WorstIndex(b.waiting));
      }
    }
  }

  function Keys(requests: seq<OrderRequest>): set<Key> {
    set r | r in requests :: KeyOf(r)
  }

  lemma DistinctLast(b: Broker, requests: seq<OrderRequest>)
    requires DistinctRequests(b, requests) && requests != []
    ensures var n := |requests| - 1;
            && DistinctRequests(b, requests[..n])
            && KeyOf(requests[n]) !in Held(b) + Keys(requests[..n])
            && Keys(requests) == Keys(requests[..n]) + {KeyOf(requests[n])}
  {
    var n := |requests| - 1;
    assert requests == requests[..n] + [requests[n]];
    assert requests[n] in requests;
  }

  // With pairwise distinct keys no request is a duplicate: all priorities are offered.
  lemma {:induction false} DistinctRequestsAllOffered(b: Broker, requests: seq<OrderRequest>)
    requires DistinctRequests(b, requests)
    ensures EnqueueAll(b, requests).1 == AllPriorities(requests)
    ensures Held(EnqueueAll(b, requests).0) <= Held(b) + Keys(requests)
  {
    if requests == [] {
    } else {
      var n := |requests| - 1;
      DistinctLast(b, requests);
      DistinctRequestsAllOffered(b, requests[..n]);
      var b1 := EnqueueAll(b, requests[..n]).0;
      HeldAfter(b1, requests[n]);
      FreshNotDeduped(b1, requests[n]);
    }
  }

  lemma FreshNotDeduped(b: Broker, r: OrderRequest)
    ensures Enqueue(b, r).1 == Deduped <==> KeyOf(r) in Held(b)
  {
  }

  // So for distinct keys the waiting priorities are the least of those waiting before
  // and all requests', as many as there is room for.
  lemma DistinctRequestsTopK(b: Broker, requests: seq<OrderRequest>)
    requires Inv(b) && DistinctRequests(b, requests)
    ensures IsLeastK(Room(b), Priorities(EnqueueAll(b, requests).0.waiting),
                     Priorities(b.waiting) + AllPriorities(requests))
  {
    WaitingIsLeastK(b, requests);
    DistinctRequestsAllOffered(b, requests);
  }
}
