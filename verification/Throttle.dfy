/** The per-endpoint rate limiter (alphaTrade/broker/throttle.py). The clock is the
    environment's: each call reads it once on entry and once when it stamps. */
module Throttle {
  import opened RealMath

  function GapOf(gaps: map<string, real>, endpoint: string): real {
    if endpoint in gaps then gaps[endpoint] else 0.0
  }

  function LastOf(last: map<string, real>, endpoint: string): real {
    if endpoint in last then last[endpoint] else 0.0
  }

  // How long a call entering at now is asked to sleep; not positive when it need not.
  function WaitFor(gaps: map<string, real>, last: map<string, real>, endpoint: string, now: real): real {
    LastOf(last, endpoint) + GapOf(gaps, endpoint) - now
  }

  // The clock does not run backwards, and a sleep lasts at least as long as asked.
  predicate ClockAllows(wait: real, now: real, stamp: real) {
    now <= stamp && (wait > 0.0 ==> now + wait <= stamp)
  }

  function Stamped(gaps: map<string, real>, last: map<string, real>, endpoint: string, stamp: real): map<string, real> {
    if GapOf(gaps, endpoint) <= 0.0 then last else last[endpoint := stamp]
  }

  class EndpointThrottle {
    const minGap: map<string, real>
    var lastCall: map<string, real>

    constructor (minGaps: map<string, real>)
      ensures minGap == minGaps && lastCall == map[]
    {
      minGap := minGaps;
      lastCall := map[];
    }

    // One acquire under the lock. now and stamp are the two clock readings.
    method Acquire(endpoint: string, now: real, stamp: real) returns (waited: real)
      requires ClockAllows(WaitFor(minGap, lastCall, endpoint, now), now, stamp)
      modifies this
      // An endpoint without a gap, or without a positive one, is not limited.
      ensures endpoint !in minGap || minGap[endpoint] <= 0.0 ==> waited == 0.0 && lastCall == old(lastCall)
      // Any other waits until its gap after its last stamp is over, and not at all after.
      ensures endpoint in minGap && minGap[endpoint] > 0.0 ==>
                var due := minGap[endpoint] + (if endpoint in old(lastCall) then old(lastCall)[endpoint] else 0.0);
                waited == (if now < due then due - now else 0.0) && lastCall == old(lastCall)[endpoint := stamp]
      ensures lastCall == Stamped(minGap, old(lastCall), endpoint, stamp)
      ensures waited >= 0.0
      ensures GapOf(minGap, endpoint) <= 0.0 ==> waited == 0.0
      ensures GapOf(minGap, endpoint) > 0.0 ==>
                stamp >= old(LastOf(lastCall, endpoint)) + GapOf(minGap, endpoint) && now + waited <= stamp
      ensures GapOf(minGap, endpoint) > 0.0 && now >= old(LastOf(lastCall, endpoint)) ==>
                waited <= GapOf(minGap, endpoint)
    {
      var gap := GapOf(minGap, endpoint);
      if gap <= 0.0 {
        return 0.0;
      }
      var last := LastOf(lastCall, endpoint);
      var wait := last + gap - now;
      lastCall := lastCall[endpoint := stamp];
      return if wait > 0.0 then wait else 0.0;
    }
  }

  // ---------------------------------------------------------------- whole runs

  datatype Call = Call(endpoint: string, now: real, stamp: real)

  // The table after a list of calls, made one after the other: the lock serialises
  // concurrent acquires, whatever their endpoints.
  function LastAfter(gaps: map<string, real>, calls: seq<Call>): map<string, real> {
    if calls == [] then map[]
    else
      var c := calls[|calls| - 1];
      Stamped(gaps, LastAfter(gaps, calls[..|calls| - 1]), c.endpoint, c.stamp)
  }

  ghost predicate Legal(gaps: map<string, real>, calls: seq<Call>) {
    forall i :: 0 <= i < |calls| ==>
      var c := calls[i];
      ClockAllows(WaitFor(gaps, LastAfter(gaps, calls[..i]), c.endpoint, c.now), c.now, c.stamp)
  }

  // The times at which one endpoint was granted.
  function Grants(calls: seq<Call>, endpoint: string): seq<real> {
    if calls == [] then []
    else
      var c := calls[|calls| - 1];
      var before := Grants(calls[..|calls| - 1], endpoint);
      if c.endpoint == endpoint then before + [c.stamp] else before
  }

  ghost predicate Spaced(stamps: seq<real>, gap: real) {
    forall i :: 0 < i < |stamps| ==> stamps[i - 1] + gap <= stamps[i]
  }

  lemma LegalPrefix(gaps: map<string, real>, calls: seq<Call>, n: nat)
    requires Legal(gaps, calls) && n <= |calls|
    ensures Legal(gaps, calls[..n])
  {
    forall i | 0 <= i < n
      ensures calls[..n][..i] == calls[..i] && calls[..n][i] == calls[i]
    {
    }
  }

  // One more grant, stamped as the clock allows, keeps the distance.
  lemma GrantSpaced(stamps: seq<real>, gap: real, last: real, now: real, stamp: real)
    requires Spaced(stamps, gap) && (stamps != [] ==> last == stamps[|stamps| - 1])
    requires ClockAllows(last + gap - now, now, stamp)
    ensures Spaced(stamps + [stamp], gap)
  {
  }

  // Consecutive grants of one endpoint are at least its gap apart, in any legal run.
  lemma {:induction false} GrantsSpaced(gaps: map<string, real>, calls: seq<Call>, endpoint: string)
    requires Legal(gaps, calls) && GapOf(gaps, endpoint) > 0.0
    ensures var g := Grants(calls, endpoint);
            && Spaced(g, GapOf(gaps, endpoint))
            && (g != [] ==> LastOf(LastAfter(gaps, calls), endpoint) == g[|g| - 1])
  {
    if calls == [] {
    } else {
      var n := |calls| - 1;
      var c, last := calls[n], LastAfter(gaps, calls[..n]);
      LegalPrefix(gaps, calls, n);
      GrantsSpaced(gaps, calls[..n], endpoint);
      if c.endpoint == endpoint {
        GrantSpaced(Grants(calls[..n], endpoint), GapOf(gaps, endpoint), LastOf(last, endpoint), c.now, c.stamp);
      }
    }
  }

  lemma {:induction false} SpacedFar(stamps: seq<real>, gap: real, i: nat, j: nat)
    requires Spaced(stamps, gap) && i <= j < |stamps|
    ensures stamps[i] + (j - i) as real * gap <= stamps[j]
    decreases j
  {
    if i == j {
    } else {
      SpacedFar(stamps, gap, i, j - 1);
      assert (j - i) as real * gap == (j - 1 - i) as real * gap + gap;
    }
  }

  lemma QuotientAtLeast(m: nat, gap: real, length: real)
    requires gap > 0.0 && m as real * gap <= length
    ensures m <= (length / gap).Floor
  {
    var q := length / gap;
    assert q * gap == length;
    MulCancel(m as real, q, gap);
  }

  lemma StampsBound(stamps: seq<real>, gap: real, i: nat, j: nat, length: real)
    requires Spaced(stamps, gap) && gap > 0.0 && i <= j < |stamps| && stamps[j] - stamps[i] <= length
    ensures j - i + 1 <= (length / gap).Floor + 1
  {
    SpacedFar(stamps, gap, i, j);
    QuotientAtLeast(j - i, gap, length);
  }

  // The rate: grants i .. j of one endpoint that all fall within a window of the given
  // length are at most floor(length / gap) + 1 in number.
  lemma RateBound(gaps: map<string, real>, calls: seq<Call>, endpoint: string, i: nat, j: nat, length: real)
    requires Legal(gaps, calls) && GapOf(gaps, endpoint) > 0.0
    requires i <= j < |Grants(calls, endpoint)|
    requires Grants(calls, endpoint)[j] - Grants(calls, endpoint)[i] <= length
    ensures j - i + 1 <= (length / GapOf(gaps, endpoint)).Floor + 1
  {
    GrantsSpaced(gaps, calls, endpoint);
    StampsBound(Grants(calls, endpoint), GapOf(gaps, endpoint), i, j, length);
  }
}
