/** The imperative broker of alphaTrade/broker/async_broker.py: a heap with lazy
    deletion, the set of evicted sequence numbers, a counter of active orders, an
    event, a list mirroring the live orders and the set of keys in use. Every method
    is proved against the plain machine of PlainBroker.dfy. */
module AsyncBroker {
  import opened Wrappers
  import opened OrderQueue
  import opened PlainBroker

  ghost predicate UniqueNumbers(heap: seq<Item>) {
    forall i, j :: 0 <= i < j < |heap| ==> heap[i].seqNo != heap[j].seqNo
  }

  // heapq.heappush: adds an entry; where it goes is the heap's business.
  method HeapPush(heap: seq<Item>, item: Item) returns (pushed: seq<Item>)
    requires UniqueNumbers(heap) && NotIn(item, heap)
    ensures UniqueNumbers(pushed) && |pushed| == |heap| + 1
    ensures forall x :: x in pushed <==> x in heap || x == item
  {
    forall i | 0 <= i < |heap|
      ensures heap[i].seqNo != item.seqNo
    {
      assert heap[i] in heap;
    }
    pushed := heap + [item];
  }

  // heapq.heappop: takes a least entry out; the order of the rest is the heap's business.
  method HeapPop(heap: seq<Item>) returns (least: Item, rest: seq<Item>)
    requires UniqueNumbers(heap) && |heap| > 0
    ensures least in heap && forall x <- heap :: x == least || Before(least, x)
    ensures UniqueNumbers(rest) && |rest| == |heap| - 1 && NotIn(least, rest)
    ensures forall x :: x in rest <==> x in heap && x != least
  {
    var m := LeastIndex(heap);
    least, rest := heap[m], Remove(heap, m);
    RemoveMembers(heap, m);
    forall x | x in rest
      ensures x.seqNo != least.seqNo
    {
      var j :| 0 <= j < |rest| && rest[j] == x;
      assert x == heap[if j < m then j else j + 1];
    }
    forall x | x in heap
      ensures x == least || (Before(least, x) && x in rest)
    {
      var j :| 0 <= j < |heap| && heap[j] == x;
      assert j != m ==> heap[j].seqNo != heap[m].seqNo;
    }
  }

  class EvictablePriorityQueue {
    var heap: seq<Item>
    var evicted: set<nat>
    var active: int
    var event: bool

    // An entry of the heap that has not been evicted.
    ghost predicate Live(x: Item)
      reads this
    {
      x in heap && x.seqNo !in evicted
    }

    // Numbers are unique, and evicted numbers are still in the heap.
    ghost predicate Consistent()
      reads this
    {
      && UniqueNumbers(heap)
      && forall n <- evicted :: exists x <- heap :: x.seqNo == n
    }

    // Moreover a live entry is never waited for in vain: while there is one the event is set.
    ghost predicate Valid()
      reads this
    {
      Consistent() && ((exists x :: Live(x)) ==> event)
    }

    constructor ()
      ensures Valid() && heap == [] && evicted == {} && active == 0 && !event
    {
      heap, evicted, active, event := [], {}, 0, false;
    }

    method PutNowait(item: Item)
      requires Valid() && NotIn(item, heap)
      modifies this
      ensures Valid()
      ensures forall x :: Live(x) <==> old(Live(x)) || x == item
      ensures forall x <- heap :: x in old(heap) || x == item
      ensures active == old(active) + 1 && event
    {
      assert item.seqNo !in evicted;
      heap := HeapPush(heap, item);
      active := active + 1;
      event := true;
    }

    method EvictBySeq(seqNo: nat)
      requires Valid() && exists x :: Live(x) && x.seqNo == seqNo
      modifies this
      ensures Consistent()
      // A counter that reaches zero clears the event, whatever is still live.
      ensures event == (old(event) && active != 0)
      ensures forall x :: Live(x) <==> old(Live(x)) && x.seqNo != seqNo
      ensures heap == old(heap) && active == old(active) - 1
    {
      evicted := evicted + {seqNo};
      active := active - 1;
      if active == 0 {
        event := false;
      }
    }

    // One resumption of get(): the next live entry, or None when the task suspends in
    // the wait for the event. Evicted entries met on the way are dropped for good.
    method Get() returns (taken: Option<Item>)
      requires Valid()
      modifies this
      ensures Valid() && active == old(active)
      ensures taken.None? <==> forall x :: !old(Live(x))
      ensures taken.None? ==> !event
      ensures taken.Some? ==>
                && old(Live(taken.value))
                && forall x :: old(Live(x)) ==> x == taken.value || Before(taken.value, x)
      ensures forall x :: Live(x) <==> old(Live(x)) && taken != Some(x)
      ensures forall x <- heap :: x in old(heap)
    {
      if !event {
        return None;
      }
      while |heap| > 0
        invariant event && UniqueNumbers(heap) && active == old(active)
        invariant forall n <- evicted :: exists x <- heap :: x.seqNo == n
        invariant forall x :: Live(x) <==> old(Live(x))
        invariant forall x <- heap :: x in old(heap)
        decreases |heap|
      {
        ghost var before := heap;
        var item, rest := HeapPop(heap);
        heap := rest;
        if item.seqNo in evicted {
          evicted := evicted - {item.seqNo};
          SkipKeepsEvicted(before, rest, item, evicted);
          assert forall x :: Live(x) <==> x in before && x.seqNo !in evicted + {item.seqNo};
        } else {
          SkipKeepsEvicted(before, rest, item, evicted);
          assert old(Live(item));
          if |heap| == 0 {
            event := false;
          }
          return Some(item);
        }
      }
      event := false;
      return None;
    }

    method TaskDone()
      modifies this`active
      ensures active == if old(active) - 1 < 0 then 0 else old(active) - 1
    {
      active := active - 1;
      if active < 0 {
        active := 0;
      }
    }

    function Qsize(): int
      reads this
    {
      active
    }
  }

  lemma SkipKeepsEvicted(before: seq<Item>, rest: seq<Item>, item: Item, evicted: set<nat>)
    requires item in before && item.seqNo !in evicted
    requires forall x :: x in rest <==> x in before && x != item
    requires forall n <- evicted + {item.seqNo} :: exists x <- before :: x.seqNo == n
    ensures forall n <- evicted :: exists x <- rest :: x.seqNo == n
  {
    forall n | n in evicted
      ensures exists x <- rest :: x.seqNo == n
    {
      assert n in evicted + {item.seqNo};
      var x :| x in before && x.seqNo == n;
      assert x in rest;
    }
  }

  // list.remove: the first entry with this sequence number, if there is one.
  method RemoveFromMirror(mirror: seq<Item>, item: Item) returns (r: seq<Item>)
    requires InArrivalOrder(mirror)
    ensures item !in mirror ==> r == mirror
    ensures forall i :: 0 <= i < |mirror| && mirror[i] == item ==> r == Remove(mirror, i)
  {
    var i := 0;
    while i < |mirror| && mirror[i] != item
      invariant 0 <= i <= |mirror|
      invariant forall j :: 0 <= j < i ==> mirror[j] != item
    {
      i := i + 1;
    }
    r := if i < |mirror| then Remove(mirror, i) else mirror;
  }

  class AsyncBroker {
    const maxDepth: int
    const queue: EvictablePriorityQueue
    var nextSeq: nat
    var seen: set<Key>
    var mirror: seq<Item>
    var phase: Phase  // where the drain task is suspended, with its local variables

    // The plain machine this object stands for. Heap, eviction set, counter, event and
    // key set do not appear: Valid says what they must be.
    ghost function Abs(): Broker
      reads this
    {
      Broker(maxDepth, nextSeq, mirror, phase)
    }

    ghost predicate Valid()
      reads this, queue
    {
      && Inv(Abs())
      && queue.Valid()
      && (forall x :: queue.Live(x) <==> x in mirror)
      && (forall x <- queue.heap :: x.seqNo < nextSeq)
      && seen == Held(Abs())
      && queue.active == Active(Abs())
    }

    constructor (maxDepth: int)
      ensures Valid() && fresh(queue) && Abs() == Start(maxDepth)
    {
      this.maxDepth := maxDepth;
      queue := new EvictablePriorityQueue();
      nextSeq, seen, mirror, phase := 0, {}, [], Idle;
    }

    method Enqueue(request: OrderRequest) returns (out: Outcome)
      requires Valid()
      modifies this, queue
      ensures Valid()
      ensures (Abs(), out) == PlainBroker.Enqueue(old(Abs()), request)
    {
      if KeyOf(request) in seen {
        return Deduped;
      }
      var priority, seqNo := OrderPriority(request.side, request.interval), nextSeq;
      var item := Item(priority, seqNo, request);
      nextSeq := nextSeq + 1;
      out := Accepted(item);
      if queue.Qsize() >= maxDepth {
        if |mirror| == 0 {
          return Refused;
        }
        var w := WorstIndex(mirror);
        var worst := mirror[w];
        if worst.priority <= priority {
          return Refused;
        }
        DropWaiting(Abs(), w);
        Evict(w);
        out := AcceptedEvicting(item, worst);
      }
      Append(item);
    }

    // The eviction part of enqueue: a waiting order leaves mirror, keys and queue.
    method Evict(w: nat)
      requires Valid() && w < |mirror|
      modifies this, queue
      ensures Valid()
      ensures Abs() == old(Abs()).(waiting := Remove(old(mirror), w))
      ensures queue.heap == old(queue.heap)
    {
      DropWaiting(Abs(), w);
      ghost var after := Abs().(waiting := Remove(mirror, w));
      var worst := mirror[w];
      assert queue.Live(worst);
      mirror := RemoveFromMirror(mirror, worst);
      seen := seen - {KeyOf(worst.request)};
      queue.EvictBySeq(worst.seqNo);
      assert Abs() == after;
      assert forall x :: queue.Live(x) <==> x in mirror;
      assert queue.active == 0 ==> mirror == [];
    }

    // The accepting part of enqueue: the order enters keys, mirror and queue.
    method Append(item: Item)
      requires Valid() && Active(Abs()) < maxDepth
      requires KeyOf(item.request) !in seen && Numbered(item, nextSeq)
      requires NotIn(item, queue.heap) && AllOlder(Abs(), item.seqNo)
      modifies this, queue
      ensures Valid()
      ensures Abs() == old(Abs()).(waiting := old(mirror) + [item])
    {
      AppendKeepsInv(Abs(), item);
      seen := seen + {KeyOf(item.request)};
      mirror := mirror + [item];
      queue.PutNowait(item);
    }

    // The drain resumes in get(): it takes an order and removes it from the mirror
    // without suspending in between, or it stays suspended. The branch that skips an
    // order whose key is no longer in use is never taken.
    method Dispatch() returns (taken: Option<Item>)
      requires Valid() && phase.Idle?
      modifies this, queue
      ensures Valid()
      ensures Abs() == Step(old(Abs()), PlainBroker.Dispatch).0
      ensures taken.None? <==> old(mirror) == []
      ensures taken.None? ==> !queue.event
      ensures taken.Some? ==> phase == Processing(taken.value)
    {
      ghost var before := Abs();
      assert |mirror| > 0 ==> queue.Live(mirror[0]);
      taken := queue.Get();
      if taken.None? {
        return;
      }
      var item := taken.value;
      TakeWaiting(before, item);
      mirror := RemoveFromMirror(mirror, item);
      if KeyOf(item.request) !in seen {
        assert false;  // the skip of an order that is no longer held: never reached
      }
      phase := Processing(item);
      assert Abs() == Step(before, PlainBroker.Dispatch).0;
    }

    // _process_one returned: the key is released before the callback is awaited.
    method ProcessDone()
      requires Valid() && phase.Processing?
      modifies this
      ensures Valid()
      ensures Abs() == Step(old(Abs()), PlainBroker.ProcessDone).0
    {
      StepKeepsInv(Abs(), PlainBroker.ProcessDone);
      seen := seen - {KeyOf(phase.item.request)};
      phase := Calling(phase.item);
    }

    // _process_one raised: the handler releases the key, the finally block counts the
    // order as done, and the loop goes round.
    method ProcessRaised()
      requires Valid() && phase.Processing?
      modifies this, queue`active
      ensures Valid()
      ensures Abs() == Step(old(Abs()), PlainBroker.ProcessRaised).0
    {
      StepKeepsInv(Abs(), PlainBroker.ProcessRaised);
      seen := seen - {KeyOf(phase.item.request)};
      queue.TaskDone();
      phase := Idle;
    }

    // The callback returned or raised (its exceptions are swallowed).
    method CallbackDone()
      requires Valid() && phase.Calling?
      modifies this, queue`active
      ensures Valid()
      ensures Abs() == Step(old(Abs()), PlainBroker.CallbackDone).0
    {
      StepKeepsInv(Abs(), PlainBroker.CallbackDone);
      queue.TaskDone();
      phase := Idle;
    }

    // One test of join()'s loop: when it ends the loop, nothing is waiting or in flight.
    method JoinReturns() returns (done: bool)
      requires Valid()
      ensures done <==> mirror == [] && phase.Idle?
    {
      done := !(queue.active > 0);
    }
  }

  // The queue's size counts the order in flight as well: it is the number of waiting
  // orders exactly while the drain is idle.
  lemma QsizeCountsInFlight(broker: AsyncBroker)
    requires broker.Valid()
    ensures broker.queue.Qsize() == |broker.mirror| <==> broker.phase.Idle?
    ensures !broker.phase.Idle? ==> broker.queue.Qsize() == |broker.mirror| + 1
  {
  }

  // Everything eviction needs to know about deleting one waiting order.
  lemma DropWaiting(b: Broker, i: nat)
    requires Inv(b) && i < |b.waiting|
    ensures Inv(b.(waiting := Remove(b.waiting, i)))
    ensures Held(b.(waiting := Remove(b.waiting, i))) == Held(b) - {KeyOf(b.waiting[i].request)}
    ensures forall x :: x in Remove(b.waiting, i) <==> x in b.waiting && x.seqNo != b.waiting[i].seqNo
  {
    RemoveKeepsInv(b, i);
    RemoveKeys(b.waiting, i);
    RemoveExactly(b.waiting, i);
    RemoveOrdered(b.waiting, i);
    assert b.waiting[i] in b.waiting;
  }

  // Everything a dispatch needs to know about taking the least waiting order.
  lemma TakeWaiting(b: Broker, item: Item)
    requires Inv(b) && b.phase.Idle?
    requires item in b.waiting && forall y <- b.waiting :: y == item || Before(item, y)
    ensures var b1 := Step(b, PlainBroker.Dispatch).0;
            && Inv(b1) && Held(b1) == Held(b) && Active(b1) == Active(b)
            && b1.phase == Processing(item) && KeyOf(item.request) in Held(b)
            && (forall x :: x in b1.waiting <==> x in b.waiting && x != item)
            && exists m: nat :: m < |b.waiting| && b.waiting[m] == item
                 && b1 == b.(waiting := Remove(b.waiting, m), phase := Processing(item))
  {
    LeastOfSet(b.waiting, item);
    var m := LeastIndex(b.waiting);
    DispatchKeepsInv(b);
    RemoveExactly(b.waiting, m);
    RemoveKeys(b.waiting, m);
    assert b.waiting[m] == item;
  }

  // The least item of a list, by value, stands at the index of the least item.
  lemma LeastOfSet(s: seq<Item>, x: Item)
    requires x in s && forall y <- s :: y == x || Before(x, y)
    ensures |s| > 0 && s[LeastIndex(s)] == x
  {
    assert s[LeastIndex(s)] in s;
    var j :| 0 <= j < |s| && s[j] == x;
    assert !Before(s[j], s[LeastIndex(s)]);
  }
}
