/** Order records, deduplication keys and the priority rule of the broker queue
    (alphaTrade/broker/order_queue.py). */
module OrderQueue {
  import opened Trading

  datatype OrderRequest = OrderRequest(
    ticker: string,
    side: Side,
    quantity: real,
    interval: Interval,
    signalTs: real,
    stopLossPct: real,
    takeProfitPct: real,
    entryPrice: real,
    barClose: string)

  // At most one order per key may be waiting or being processed.
  datatype Key = Key(ticker: string, side: Side, barClose: string)

  function KeyOf(r: OrderRequest): Key {
    Key(r.ticker, r.side, r.barClose)
  }

  function IntervalIndex(interval: Interval): nat {
    match interval
    case M1 => 0
    case M5 => 1
    case M15 => 2
    case H1 => 3
    case H4 => 4
    case D1 => 5
    case W1 => 6
    case Other(_) => 3
  }

  // Lower is more urgent. A SELL is in a class of its own ahead of every BUY.
  function OrderPriority(side: Side, interval: Interval): (p: nat)
    ensures p == 0 <==> side == Sell
  {
    if side == Sell then 0 else 1 + IntervalIndex(interval)
  }

  // The length of a bar as the stale check sees it.
  function IntervalSeconds(interval: Interval): nat {
    SecondsOr(interval, 86400)
  }

  // The whole rule: a SELL goes before every BUY and ties with every SELL; among BUYs of
  // known intervals urgency is bar length, the shorter bar first; a BUY of an unknown
  // interval ties with the hourly ones. The numbers run from 1 for a minute to 7 for a week.
  lemma UrgencyRule(side: Side, a: Interval, other: Side, b: Interval)
    ensures side == Sell ==> (OrderPriority(side, a) < OrderPriority(other, b) <==> other == Buy)
    ensures side == Sell && other == Sell ==> OrderPriority(side, a) == OrderPriority(other, b)
    ensures side == Buy && other == Buy && !a.Other? && !b.Other? ==>
              (OrderPriority(side, a) < OrderPriority(other, b) <==> IntervalSeconds(a) < IntervalSeconds(b))
    ensures a.Other? ==> OrderPriority(side, a) == OrderPriority(side, H1)
    ensures OrderPriority(Sell, a) == 0 && OrderPriority(Buy, M1) == 1 && OrderPriority(Buy, W1) == 7
  {
    match a {
      case M1 =>
      case M5 =>
      case M15 =>
      case H1 =>
      case H4 =>
      case D1 =>
      case W1 =>
      case Other(_) =>
    }
  }

  // A heap entry. The sequence number breaks ties, so the request is never compared.
  datatype Item = Item(priority: nat, seqNo: nat, request: OrderRequest)

  predicate Before(a: Item, b: Item) {
    a.priority < b.priority || (a.priority == b.priority && a.seqNo < b.seqNo)
  }
}
