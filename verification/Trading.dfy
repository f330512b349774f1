/** Vocabulary shared by the components: order sides, bar intervals and the table of bar
    lengths (alphaTrade/broker/async_broker.py, alphaTrade/backtest/engine.py and
    alphaTrade/scheduler/bar_close.py each hold a copy of it). */
module Trading {
  datatype Side = Buy | Sell

  // The interval names the tables know; any other string is Other.
  datatype Interval = M1 | M5 | M15 | H1 | H4 | D1 | W1 | Other(name: string)

  // The length of a bar in seconds, or the given length for a name not in the table.
  function SecondsOr(interval: Interval, unknown: nat): nat {
    match interval
    case M1 => 60
    case M5 => 300
    case M15 => 900
    case H1 => 3600
    case H4 => 14400
    case D1 => 86400
    case W1 => 604800
    case Other(_) => unknown
  }

  // The table is right: each length counted in the one before, from a minute of sixty
  // seconds up to a week of seven days.
  lemma BarLengths(unknown: nat, name: string)
    ensures SecondsOr(M1, unknown) == 60
    ensures SecondsOr(M5, unknown) == 5 * SecondsOr(M1, unknown)
    ensures SecondsOr(M15, unknown) == 3 * SecondsOr(M5, unknown)
    ensures SecondsOr(H1, unknown) == 4 * SecondsOr(M15, unknown)
    ensures SecondsOr(H4, unknown) == 4 * SecondsOr(H1, unknown)
    ensures SecondsOr(D1, unknown) == 6 * SecondsOr(H4, unknown)
    ensures SecondsOr(W1, unknown) == 7 * SecondsOr(D1, unknown)
    ensures SecondsOr(Other(name), unknown) == unknown
  {
  }
}
