/** The reference machine for the order broker: one plain list of waiting orders,
    from which an evicted order is deleted at once, and the drain task's place in
    its loop. It has no heap, no eviction set, no counter, no event and no
    deduplication set; AsyncBroker.dfy shows that the five pieces of state of
    alphaTrade/broker/async_broker.py implement it. */
module PlainBroker {
  import opened OrderQueue

  // Where the drain task is suspended: in get(), in _process_one, or in the callback.
  datatype Phase = Idle | Processing(item: Item) | Calling(item: Item)

  datatype Broker = Broker(depth: int, nextSeq: nat, waiting: seq<Item>, phase: Phase)

  datatype Outcome = Deduped | Refused | Accepted(item: Item) | AcceptedEvicting(item: Item, victim: Item)

  function Start(depth: int): Broker {
    Broker(depth, 0, [], Idle)
  }

  function InFlight(b: Broker): seq<Item> {
    if b.phase.Idle? then [] else [b.phase.item]
  }

  function Active(b: Broker): nat {
    |b.waiting| + |InFlight(b)|
  }

  function KeySet(s: seq<Item>): set<Key> {
    set x | x in s :: KeyOf(x.request)
  }

  // The keys an arriving order may not repeat: waiting orders and the one in
  // _process_one. The key is released before the callback runs.
  function Held(b: Broker): set<Key> {
    KeySet(b.waiting) + (if b.phase.Processing? then {KeyOf(b.phase.item.request)} else {})
  }

  function Remove(s: seq<Item>, i: nat): (r: seq<Item>)
    requires i < |s|
    ensures |r| == |s| - 1
  {
    s[..i] + s[i + 1..]
  }

  // The position of the first item of the worst priority class.
  function WorstIndex(s: seq<Item>): (w: nat)
    requires |s| > 0
    ensures w < |s|
    ensures forall j :: 0 <= j < |s| ==> s[j].priority <= s[w].priority
    ensures forall j :: 0 <= j < w ==> s[j].priority < s[w].priority
  {
    if |s| == 1 then 0
    else
      var w := WorstIndex(s[..|s| - 1]);
      assert forall j :: 0 <= j < |s| - 1 ==> s[..|s| - 1][j] == s[j];
      if s[|s| - 1].priority > s[w].priority then |s| - 1 else w
  }

  // Sequence numbers grow along the list: it is in arrival order.
  ghost predicate InArrivalOrder(s: seq<Item>) {
    forall i, j :: 0 <= i < j < |s| ==> s[i].seqNo < s[j].seqNo
  }

  // The position of the least item, in the order of heap entries.
  function LeastIndex(s: seq<Item>): (m: nat)
    requires |s| > 0
    ensures m < |s|
    ensures forall j :: 0 <= j < |s| ==> !Before(s[j], s[m])
    ensures forall j :: 0 <= j < m ==> Before(s[m], s[j])
  {
    if |s| == 1 then 0
    else
      var m := LeastIndex(s[..|s| - 1]);
      assert forall j :: 0 <= j < |s| - 1 ==> s[..|s| - 1][j] == s[j];
      if Before(s[|s| - 1], s[m]) then |s| - 1 else m
  }

  function Enqueue(b: Broker, r: OrderRequest): (Broker, Outcome) {
    if KeyOf(r) in Held(b) then (b, Deduped)
    else
      var item := Item(OrderPriority(r.side, r.interval), b.nextSeq, r);
      var b1 := b.(nextSeq := b.nextSeq + 1);
      if Active(b) < b.depth then
        (b1.(waiting := b.waiting + [item]), Accepted(item))
      else if |b.waiting| == 0 then (b1, Refused)
      else
        var w := WorstIndex(b.waiting);
        if b.waiting[w].priority <= item.priority then (b1, Refused)
        else (b1.(waiting := Remove(b.waiting, w) + [item]), AcceptedEvicting(item, b.waiting[w]))
  }

  // The atomic steps of the program. A drain step that its place in the loop does
  // not allow, or that has nothing to take, changes nothing: the task stays suspended.
  datatype Event =
    | Offer(request: OrderRequest)
    | Dispatch
    | ProcessDone
    | ProcessRaised
    | CallbackDone

  // What a run has done with its orders, in order of time.
  datatype Effects = Effects(accepted: seq<Item>, evicted: seq<Item>, started: seq<Item>, finished: seq<Item>)
  {
    function Then(next: Effects): Effects {
      Effects(accepted + next.accepted, evicted + next.evicted, started + next.started, finished + next.finished)
    }
  }

  const NOTHING := Effects([], [], [], [])

  function Step(b: Broker, e: Event): (Broker, Effects) {
    match e
    case Offer(r) =>
      var (b1, out) := Enqueue(b, r);
      (match out
       case Deduped => (b1, NOTHING)
       case Refused => (b1, NOTHING)
       case Accepted(item) => (b1, NOTHING.(accepted := [item]))
       case AcceptedEvicting(item, victim) => (b1, NOTHING.(accepted := [item], evicted := [victim])))
    case Dispatch =>
      if b.phase.Idle? && |b.waiting| > 0 then
        var m := LeastIndex(b.waiting);
        (b.(waiting := Remove(b.waiting, m), phase := Processing(b.waiting[m])),
         NOTHING.(started := [b.waiting[m]]))
      else (b, NOTHING)
    case ProcessDone =>
      if b.phase.Processing? then (b.(phase := Calling(b.phase.item)), NOTHING) else (b, NOTHING)
    case ProcessRaised =>
      if b.phase.Processing? then (b.(phase := Idle), NOTHING.(finished := [b.phase.item])) else (b, NOTHING)
    case CallbackDone =>
      if b.phase.Calling? then (b.(phase := Idle), NOTHING.(finished := [b.phase.item])) else (b, NOTHING)
  }

  function Run(b: Broker, events: seq<Event>): (Broker, Effects)
    decreases |events|
  {
    if events == [] then (b, NOTHING)
    else
      var (b1, f1) := Step(b, events[0]);
      var (b2, f2) := Run(b1, events[1..]);
      (b2, f1.Then(f2))
  }

  // ---------------------------------------------------------------- invariant

  ghost predicate DistinctKeys(s: seq<Item>) {
    forall i, j :: 0 <= i < j < |s| ==> KeyOf(s[i].request) != KeyOf(s[j].request)
  }

  // What holds of every item ever accepted.
  ghost predicate Numbered(x: Item, nextSeq: nat) {
    x.seqNo < nextSeq && x.priority == OrderPriority(x.request.side, x.request.interval)
  }

  ghost predicate AllNumbered(s: seq<Item>, nextSeq: nat) {
    forall x <- s :: Numbered(x, nextSeq)
  }

  ghost predicate NotIn(x: Item, s: seq<Item>) {
    forall y <- s :: y.seqNo != x.seqNo
  }

  // One order per key among those waiting and the one being processed, the list in
  // arrival order, and never more orders than the depth allows.
  ghost predicate Inv(b: Broker) {
    && InArrivalOrder(b.waiting)
    && DistinctKeys(b.waiting)
    && AllNumbered(b.waiting, b.nextSeq)
    && (!b.phase.Idle? ==> Numbered(b.phase.item, b.nextSeq) && NotIn(b.phase.item, b.waiting))
    && (b.phase.Processing? ==> KeyOf(b.phase.item.request) !in KeySet(b.waiting))
    && Active(b) <= if b.depth < 0 then 0 else b.depth
  }

  // Deleting position i of a list leaves the other items, in the same order.
  lemma RemoveMembers(s: seq<Item>, i: nat)
    requires i < |s|
    ensures forall j :: 0 <= j < |s| - 1 ==> Remove(s, i)[j] == s[if j < i then j else j + 1]
    ensures forall x <- Remove(s, i) :: x in s
    ensures forall j :: 0 <= j < |s| && j != i ==> s[j] in Remove(s, i)
  {
    forall j | 0 <= j < |s| && j != i
      ensures s[j] in Remove(s, i)
    {
      assert Remove(s, i)[if j < i then j else j - 1] == s[j];
    }
  }

  lemma RemoveOrdered(s: seq<Item>, i: nat)
    requires i < |s| && InArrivalOrder(s)
    ensures InArrivalOrder(Remove(s, i)) && NotIn(s[i], Remove(s, i))
  {
    RemoveMembers(s, i);
    var r := Remove(s, i);
    forall y | y in r
      ensures y.seqNo != s[i].seqNo
    {
      var j :| 0 <= j < |r| && r[j] == y;
      assert y == s[if j < i then j else j + 1];
    }
  }

  // In a list in arrival order every item occurs once, so deleting it removes it.
  lemma RemoveExactly(s: seq<Item>, i: nat)
    requires i < |s| && InArrivalOrder(s)
    ensures forall x :: x in Remove(s, i) <==> x in s && x != s[i]
  {
    RemoveMembers(s, i);
    RemoveOrdered(s, i);
    forall x | x in s && x != s[i]
      ensures x in Remove(s, i)
    {
      var j :| 0 <= j < |s| && s[j] == x;
    }
  }

  lemma RemoveKeys(s: seq<Item>, i: nat)
    requires i < |s| && DistinctKeys(s)
    ensures DistinctKeys(Remove(s, i))
    ensures KeySet(Remove(s, i)) == KeySet(s) - {KeyOf(s[i].request)}
  {
    RemoveMembers(s, i);
    var r := Remove(s, i);
    forall k | k in KeySet(s) && k != KeyOf(s[i].request)
      ensures k in KeySet(r)
    {
      var j :| 0 <= j < |s| && KeyOf(s[j].request) == k;
      assert s[j] in r;
    }
    forall x | x in r
      ensures KeyOf(x.request) in KeySet(s) && KeyOf(x.request) != KeyOf(s[i].request)
    {
      var j :| 0 <= j < |r| && r[j] == x;
      assert x == s[if j < i then j else j + 1];
    }
  }

  lemma RemoveKeepsInv(b: Broker, i: nat)
    requires Inv(b) && i < |b.waiting|
    ensures Inv(b.(waiting := Remove(b.waiting, i)))
    ensures KeyOf(b.waiting[i].request) !in KeySet(Remove(b.waiting, i))
  {
    RemoveMembers(b.waiting, i);
    RemoveOrdered(b.waiting, i);
    RemoveKeys(b.waiting, i);
  }

  ghost predicate AllOlder(b: Broker, seqNo: nat) {
    (forall x <- b.waiting :: x.seqNo < seqNo) && (!b.phase.Idle? ==> b.phase.item.seqNo < seqNo)
  }

  lemma AppendKeepsInv(b: Broker, item: Item)
    requires Inv(b)
    requires Active(b) < b.depth && KeyOf(item.request) !in Held(b)
    requires Numbered(item, b.nextSeq)
    requires AllOlder(b, item.seqNo)
    ensures Inv(b.(waiting := b.waiting + [item]))
  {
    forall i | 0 <= i < |b.waiting|
      ensures KeyOf(b.waiting[i].request) != KeyOf(item.request) && b.waiting[i].seqNo < item.seqNo
    {
      assert b.waiting[i] in b.waiting;
      assert KeyOf(b.waiting[i].request) in KeySet(b.waiting);
    }
  }

  lemma EnqueueKeepsInv(b: Broker, r: OrderRequest)
    requires Inv(b)
    ensures Inv(Enqueue(b, r).0)
  {
    var (b1, out) := Enqueue(b, r);
    var next := b.(nextSeq := b.nextSeq + 1);
    if out.Accepted? {
      AppendKeepsInv(next, out.item);
    } else if out.AcceptedEvicting? {
      var w := WorstIndex(b.waiting);
      RemoveKeepsInv(next, w);
      RemoveMembers(b.waiting, w);
      RemoveKeys(b.waiting, w);
      AppendKeepsInv(next.(waiting := Remove(b.waiting, w)), out.item);
    }
  }

  lemma DispatchKeepsInv(b: Broker)
    requires Inv(b) && b.phase.Idle? && |b.waiting| > 0
    ensures Inv(Step(b, Dispatch).0)
  {
    var m := LeastIndex(b.waiting);
    RemoveKeepsInv(b, m);
    RemoveOrdered(b.waiting, m);
  }

  // Every step keeps the invariant.
  lemma StepKeepsInv(b: Broker, e: Event)
    requires Inv(b)
    ensures Inv(Step(b, e).0)
  {
    if e.Offer? {
      EnqueueKeepsInv(b, e.request);
    } else if e.Dispatch? && b.phase.Idle? && |b.waiting| > 0 {
      DispatchKeepsInv(b);
    } else {
      var b1 := Step(b, e).0;
      assert b1.waiting == b.waiting;
      assert forall x <- InFlight(b1) :: x in InFlight(b);
    }
  }

  // ... and so does every run, in any interleaving of arrivals with the drain's steps.
  lemma {:induction false} RunKeepsInv(b: Broker, events: seq<Event>)
    requires Inv(b)
    ensures Inv(Run(b, events).0)
    decreases |events|
  {
    if events == [] {
    } else {
      StepKeepsInv(b, events[0]);
      RunKeepsInv(Step(b, events[0]).0, events[1..]);
    }
  }
}
