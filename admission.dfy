/** Admission control in front of every HTTP request (`rateLimitedRequest`), as a
    sequential state machine. Time is a parameter, and a wait that another request
    would end is a loop over clock readings or a refusal the caller retries. */
module Admission {
  import opened JsValues

  /** How a request ended: with a value or with a thrown error. */
  datatype Completion<T> = Returned(value: T) | Threw(message: string)

  // ---------------------------------------------------------------------------
  // The counter of the cost-distribution script
  // ---------------------------------------------------------------------------

  /** `RATE_LIMIT.maxConcurrentRequests` of the cost-distribution script. */
  const MainMaxConcurrentRequests: nat := 24

  /** The module-level `activeRequests` and `lastRequestTime` of the
      cost-distribution script. */
  class RequestCounter {
    const maxConcurrentRequests: nat
    var activeRequests: int
    var lastRequestTime: int

    /** The counter never goes negative and never exceeds the cap. */
    predicate Valid()
      reads this
    {
      0 <= activeRequests <= maxConcurrentRequests
    }

    constructor(maxConcurrentRequests: nat)
      ensures Valid()
      ensures this.maxConcurrentRequests == maxConcurrentRequests
      ensures activeRequests == 0 && lastRequestTime == 0
    {
      this.maxConcurrentRequests := maxConcurrentRequests;
      activeRequests := 0;
      lastRequestTime := 0;
    }

    /** One pass of the admission guard: below the cap the request is admitted,
        counted and its time recorded; at the cap nothing changes and the caller
        waits and tries again. */
    method TryAdmit(now: int) returns (admitted: bool)
      requires Valid()
      modifies this
      ensures Valid()
      ensures admitted <==> old(activeRequests) < maxConcurrentRequests
      ensures admitted ==> activeRequests == old(activeRequests) + 1 && lastRequestTime == now
      ensures !admitted ==> activeRequests == old(activeRequests) && lastRequestTime == old(lastRequestTime)
    {
      if activeRequests >= maxConcurrentRequests {
        return false;
      }
      activeRequests := activeRequests + 1;
      lastRequestTime := now;
      admitted := true;
    }

    /** The `finally` block: one admitted request is done. */
    method Release()
      requires Valid() && activeRequests > 0
      modifies this
      ensures Valid()
      ensures activeRequests == old(activeRequests) - 1
      ensures lastRequestTime == old(lastRequestTime)
    {
      activeRequests := activeRequests - 1;
    }

    /** A whole request with nothing else in flight between its start and its end:
        when admitted it yields the request's completion (value or error) and the
        counter is back where it was, whether the request returned or threw. */
    method Submit<T>(now: int, request: Completion<T>) returns (result: Option<Completion<T>>)
      requires Valid()
      modifies this
      ensures Valid()
      ensures result.Some? <==> old(activeRequests) < maxConcurrentRequests
      ensures result.Some? ==> result.value == request && lastRequestTime == now
      ensures result.None? ==> lastRequestTime == old(lastRequestTime)
      ensures activeRequests == old(activeRequests)
    {
      var admitted := TryAdmit(now);
      if !admitted {
        return None;
      }
      result := Some(request);
      Release();
    }
  }

  /** The counter as the cost-distribution script starts it: nothing in flight
      under its cap of 24. */
  method NewMainCounter() returns (c: RequestCounter)
    ensures fresh(c) && c.Valid()
    ensures c.maxConcurrentRequests == MainMaxConcurrentRequests && c.activeRequests == 0
  {
    c := new RequestCounter(MainMaxConcurrentRequests);
  }

  // ---------------------------------------------------------------------------
  // The timestamp list of example A
  // ---------------------------------------------------------------------------

  /** `RATE_LIMIT.maxConcurrentRequests` of example A. */
  const ExampleMaxConcurrentRequests: nat := 20
  /** Age after which a timestamp is stale. */
  const StaleAfter: int := 30000
  /** Age kept by the forced cleanup. */
  const ForcedKeep: int := 5000
  /** Waits tolerated before a forced cleanup. */
  const MaxWaits: nat := 50

  /** `ts.filter(t => now - t < window)`. */
  function KeepRecent(ts: seq<int>, now: int, window: int): (r: seq<int>)
    ensures |r| <= |ts|
    decreases |ts|
  {
    if ts == [] then []
    else KeepRecent(ts[..|ts| - 1], now, window) + (if now - ts[|ts| - 1] < window then [ts[|ts| - 1]] else [])
  }

  /** A timestamp survives a cleanup exactly when it was there and is recent. */
  lemma {:induction false} KeepRecentMember(ts: seq<int>, now: int, window: int, t: int)
    ensures t in KeepRecent(ts, now, window) <==> t in ts && now - t < window
    decreases |ts|
  {
    if ts != [] {
      var init := ts[..|ts| - 1];
      KeepRecentMember(init, now, window, t);
      assert ts == init + [ts[|ts| - 1]];
    }
  }

  /** Cleanup works entry by entry, so the survivors keep their order. */
  lemma {:induction false} KeepRecentAppend(a: seq<int>, b: seq<int>, now: int, window: int)
    ensures KeepRecent(a + b, now, window) == KeepRecent(a, now, window) + KeepRecent(b, now, window)
    decreases |b|
  {
    if b == [] {
      assert a + b == a;
    } else {
      var b' := b[..|b| - 1];
      assert (a + b)[..|a + b| - 1] == a + b';
      KeepRecentAppend(a, b', now, window);
    }
  }

  /** Every timestamp is old enough to be dropped by a cleanup at `now`. */
  predicate AllStale(ts: seq<int>, now: int) {
    forall t :: t in ts ==> now - t >= StaleAfter
  }

  /** `requestTimestamps.indexOf(x)`: the first position holding `x`. */
  function IndexOf(ts: seq<int>, x: int): (r: Option<nat>)
    ensures r.None? <==> x !in ts
    ensures r.Some? ==> r.value < |ts| && ts[r.value] == x && x !in ts[..r.value]
  {
    if ts == [] then None
    else if ts[0] == x then Some(0)
    else
      var r := IndexOf(ts[1..], x);
      if r.None? then None
      else
        assert ts[..r.value + 1] == [ts[0]] + ts[1..][..r.value];
        Some(r.value + 1)
  }

  /** `indexOf` then `splice(i, 1)`: the first occurrence of `x` removed. */
  function RemoveFirst(ts: seq<int>, x: int): seq<int> {
    match IndexOf(ts, x)
    case None => ts
    case Some(i) => ts[..i] + ts[i + 1..]
  }

  /** Removing one occurrence takes exactly one `x` out of the list, or leaves a
      list without `x` alone, and keeps the other entries in their order. */
  lemma RemoveFirstMeaning(ts: seq<int>, x: int)
    ensures x !in ts ==> RemoveFirst(ts, x) == ts
    ensures x in ts ==> multiset(RemoveFirst(ts, x)) == multiset(ts) - multiset{x}
    ensures x in ts ==> exists i :: 0 <= i < |ts| && ts[i] == x && RemoveFirst(ts, x) == ts[..i] + ts[i + 1..]
  {
    if x in ts {
      var i := IndexOf(ts, x).value;
      assert ts == ts[..i] + [x] + ts[i + 1..];
      calc {
        multiset(ts);
        multiset(ts[..i]) + multiset{x} + multiset(ts[i + 1..]);
      }
    }
  }

  /** Every timestamp of `ts` is one of `before`. */
  ghost predicate Within(ts: seq<int>, before: seq<int>) {
    forall t :: t in ts ==> t in before
  }

  /** A cleanup keeps only timestamps it was given; and once every timestamp of a
      superset is stale, the regular cleanup leaves nothing. */
  lemma CleanupWithin(pre: seq<int>, before: seq<int>, now: int, window: int)
    requires Within(pre, before)
    ensures Within(KeepRecent(pre, now, window), before)
    ensures window == StaleAfter && AllStale(before, now) ==> KeepRecent(pre, now, window) == []
  {
    forall t | t in KeepRecent(pre, now, window) ensures t in before && now - t < window {
      KeepRecentMember(pre, now, window, t);
    }
    var r := KeepRecent(pre, now, window);
    assert r != [] ==> r[0] in r;
  }

  /** The list the wait loop of `rateLimitedRequest` leaves: while at the cap and
      readings remain, count one wait, after more than `MaxWaits` of them keep only
      the entries younger than `ForcedKeep` at the start time and restart the count,
      then clean up at the next reading. */
  function Waited(ts: seq<int>, cap: nat, startTime: int, clock: seq<int>, waitCount: nat): seq<int>
    decreases |clock|
  {
    if |ts| < cap || clock == [] then ts
    else
      var forced := waitCount + 1 > MaxWaits;
      var kept := if forced then KeepRecent(ts, startTime, ForcedKeep) else ts;
      Waited(KeepRecent(kept, clock[0], StaleAfter), cap, startTime, clock[1..], if forced then 0 else waitCount + 1)
  }

  /** How many clock readings that wait loop takes. */
  function ReadingsUsed(ts: seq<int>, cap: nat, startTime: int, clock: seq<int>, waitCount: nat): (used: nat)
    ensures used <= |clock|
    decreases |clock|
  {
    if |ts| < cap || clock == [] then 0
    else
      var forced := waitCount + 1 > MaxWaits;
      var kept := if forced then KeepRecent(ts, startTime, ForcedKeep) else ts;
      1 + ReadingsUsed(KeepRecent(kept, clock[0], StaleAfter), cap, startTime, clock[1..], if forced then 0 else waitCount + 1)
  }

  /** The wait ends below the cap, or at the cap with every reading taken. */
  lemma {:induction false} WaitedStops(ts: seq<int>, cap: nat, startTime: int, clock: seq<int>, waitCount: nat)
    ensures |Waited(ts, cap, startTime, clock, waitCount)| < cap
      || ReadingsUsed(ts, cap, startTime, clock, waitCount) == |clock|
    decreases |clock|
  {
    if !(|ts| < cap || clock == []) {
      var forced := waitCount + 1 > MaxWaits;
      var kept := if forced then KeepRecent(ts, startTime, ForcedKeep) else ts;
      WaitedStops(KeepRecent(kept, clock[0], StaleAfter), cap, startTime, clock[1..], if forced then 0 else waitCount + 1);
    }
  }

  /** The wait only ever drops entries. */
  lemma {:induction false} WaitedShrinks(ts: seq<int>, cap: nat, startTime: int, clock: seq<int>, waitCount: nat)
    ensures |Waited(ts, cap, startTime, clock, waitCount)| <= |ts|
    decreases |clock|
  {
    if !(|ts| < cap || clock == []) {
      var forced := waitCount + 1 > MaxWaits;
      var kept := if forced then KeepRecent(ts, startTime, ForcedKeep) else ts;
      WaitedShrinks(KeepRecent(kept, clock[0], StaleAfter), cap, startTime, clock[1..], if forced then 0 else waitCount + 1);
    }
  }

  /** An entry survives the wait exactly when it was listed, was younger than
      `StaleAfter` at every reading taken, and, once more than `MaxWaits` waits
      have happened, was younger than `ForcedKeep` at the start time. */
  lemma {:induction false} WaitedMember(ts: seq<int>, cap: nat, startTime: int, clock: seq<int>, waitCount: nat, t: int)
    requires waitCount <= MaxWaits
    ensures var used := ReadingsUsed(ts, cap, startTime, clock, waitCount);
      t in Waited(ts, cap, startTime, clock, waitCount) <==>
        && t in ts
        && (forall k :: 0 <= k < used ==> clock[k] - t < StaleAfter)
        && (waitCount + used > MaxWaits ==> startTime - t < ForcedKeep)
    decreases |clock|
  {
    if !(|ts| < cap || clock == []) {
      var forced := waitCount + 1 > MaxWaits;
      var kept := if forced then KeepRecent(ts, startTime, ForcedKeep) else ts;
      var next := KeepRecent(kept, clock[0], StaleAfter);
      var count := if forced then 0 else waitCount + 1;
      WaitedMember(next, cap, startTime, clock[1..], count, t);
      KeepRecentMember(kept, clock[0], StaleAfter, t);
      if forced {
        KeepRecentMember(ts, startTime, ForcedKeep, t);
      }
      var used' := ReadingsUsed(next, cap, startTime, clock[1..], count);
      assert ReadingsUsed(ts, cap, startTime, clock, waitCount) == 1 + used';
      RecentAtAllShift(clock, used', t);
    }
  }

  /** Being recent at the first `1 + n` readings is being recent at the first
      reading and at the first `n` of the rest. */
  lemma RecentAtAllShift(clock: seq<int>, n: nat, t: int)
    requires 1 + n <= |clock|
    ensures (forall k :: 0 <= k < 1 + n ==> clock[k] - t < StaleAfter) <==>
      clock[0] - t < StaleAfter && (forall k :: 0 <= k < n ==> clock[1..][k] - t < StaleAfter)
  {
    if clock[0] - t < StaleAfter && (forall k :: 0 <= k < n ==> clock[1..][k] - t < StaleAfter) {
      forall k | 0 <= k < 1 + n ensures clock[k] - t < StaleAfter {
        if k > 0 { assert clock[k] == clock[1..][k - 1]; }
      }
    }
  }

  /** What `Admit` keeps of the list it found: an entry stays exactly when it is
      younger than `StaleAfter` at the start time and at every reading taken, and,
      after more than `MaxWaits` waits, younger than `ForcedKeep` at the start time. */
  lemma AdmissionKeeps(listed: seq<int>, cap: nat, startTime: int, clock: seq<int>, t: int)
    ensures var recent := KeepRecent(listed, startTime, StaleAfter);
      var used := ReadingsUsed(recent, cap, startTime, clock, 0);
      t in Waited(recent, cap, startTime, clock, 0) <==>
        && t in listed
        && startTime - t < StaleAfter
        && (forall k :: 0 <= k < used ==> clock[k] - t < StaleAfter)
        && (used > MaxWaits ==> startTime - t < ForcedKeep)
  {
    var recent := KeepRecent(listed, startTime, StaleAfter);
    WaitedMember(recent, cap, startTime, clock, 0, t);
    KeepRecentMember(listed, startTime, StaleAfter, t);
  }

  /** Once a reading finds every listed entry stale, the wait ends below any
      positive cap. */
  lemma {:induction false} WaitedProgress(ts: seq<int>, before: seq<int>, cap: nat, startTime: int, clock: seq<int>, waitCount: nat, k: nat)
    requires Within(ts, before) && cap > 0
    requires k < |clock| && AllStale(before, clock[k])
    ensures |Waited(ts, cap, startTime, clock, waitCount)| < cap
    decreases |clock|
  {
    if |ts| >= cap {
      var forced := waitCount + 1 > MaxWaits;
      var kept := if forced then KeepRecent(ts, startTime, ForcedKeep) else ts;
      CleanupWithin(ts, before, startTime, ForcedKeep);
      CleanupWithin(kept, before, clock[0], StaleAfter);
      var next := KeepRecent(kept, clock[0], StaleAfter);
      var count := if forced then 0 else waitCount + 1;
      if k == 0 {
        assert next == [];
      } else {
        assert clock[1..][k - 1] == clock[k];
        WaitedProgress(next, before, cap, startTime, clock[1..], count, k - 1);
      }
    }
  }

  /** The module-level `requestTimestamps` and `activeRequests` of example A. */
  class TimestampLimiter {
    const maxConcurrentRequests: nat
    var requestTimestamps: seq<int>
    var activeRequests: int

    /** Neither the list nor the count ever exceeds the cap. */
    predicate Valid()
      reads this
    {
      |requestTimestamps| <= maxConcurrentRequests && 0 <= activeRequests <= maxConcurrentRequests
    }

    constructor(maxConcurrentRequests: nat)
      ensures Valid()
      ensures this.maxConcurrentRequests == maxConcurrentRequests
      ensures requestTimestamps == [] && activeRequests == 0
    {
      this.maxConcurrentRequests := maxConcurrentRequests;
      requestTimestamps := [];
      activeRequests := 0;
    }

    /** Drop every timestamp with `now - t >= window` and recount. */
    method Cleanup(now: int, window: int)
      requires Valid()
      modifies this
      ensures Valid()
      ensures requestTimestamps == KeepRecent(old(requestTimestamps), now, window)
      ensures activeRequests == |requestTimestamps|
    {
      requestTimestamps := KeepRecent(requestTimestamps, now, window);
      activeRequests := |requestTimestamps|;
    }

    /** The admission part of `rateLimitedRequest` for a request started at
        `startTime`: a cleanup at `startTime`, then the wait loop over the readings
        of `clock`, then the request's timestamp is pushed if the list is below the
        cap. When the readings run out while still at the cap the request is not
        admitted (the script would go on waiting). */
    method Admit(startTime: int, clock: seq<int>) returns (admitted: bool)
      requires Valid()
      modifies this
      ensures Valid()
      ensures var w := Waited(KeepRecent(old(requestTimestamps), startTime, StaleAfter), maxConcurrentRequests, startTime, clock, 0);
        && admitted == (|w| < maxConcurrentRequests)
        && requestTimestamps == (if admitted then w + [startTime] else w)
      ensures activeRequests == |requestTimestamps|
      ensures admitted ==> activeRequests <= maxConcurrentRequests
      ensures var recent := KeepRecent(old(requestTimestamps), startTime, StaleAfter);
        |recent| < maxConcurrentRequests ==> admitted && requestTimestamps == recent + [startTime]
      ensures maxConcurrentRequests > 0 && (exists k :: 0 <= k < |clock| && AllStale(old(requestTimestamps), clock[k]))
        ==> admitted
    {
      ghost var before := requestTimestamps;
      var ts := KeepRecent(requestTimestamps, startTime, StaleAfter);
      ghost var w := Waited(ts, maxConcurrentRequests, startTime, clock, 0);
      var waitCount: nat := 0;
      var n := 0;
      while |ts| >= maxConcurrentRequests && n < |clock|
        invariant 0 <= n <= |clock|
        invariant Waited(ts, maxConcurrentRequests, startTime, clock[n..], waitCount) == w
        decreases |clock| - n
      {
        assert clock[n..][0] == clock[n] && clock[n..][1..] == clock[n + 1..];
        waitCount := waitCount + 1;
        if waitCount > MaxWaits {
          ts := KeepRecent(ts, startTime, ForcedKeep);
          waitCount := 0;
        }
        var now := clock[n];
        ts := KeepRecent(ts, now, StaleAfter);
        n := n + 1;
      }
      assert ts == w;
      WaitedShrinks(KeepRecent(before, startTime, StaleAfter), maxConcurrentRequests, startTime, clock, 0);
      if maxConcurrentRequests > 0 && exists k :: 0 <= k < |clock| && AllStale(before, clock[k]) {
        var k :| 0 <= k < |clock| && AllStale(before, clock[k]);
        CleanupWithin(before, before, startTime, StaleAfter);
        WaitedProgress(KeepRecent(before, startTime, StaleAfter), before, maxConcurrentRequests, startTime, clock, 0, k);
      }
      if |ts| >= maxConcurrentRequests {
        requestTimestamps, activeRequests := ts, |ts|;
        return false;
      }
      requestTimestamps, activeRequests := ts + [startTime], |ts| + 1;
      admitted := true;
    }

    /** The `finally` block of `rateLimitedRequest`: remove one occurrence of the
        request's timestamp, if a cleanup has not already dropped it, and count one
        request less, never going below zero. */
    method Release(startTime: int)
      requires Valid()
      modifies this
      ensures Valid()
      ensures requestTimestamps == RemoveFirst(old(requestTimestamps), startTime)
      ensures activeRequests == if old(activeRequests) > 0 then old(activeRequests) - 1 else 0
    {
      var requestIndex := IndexOf(requestTimestamps, startTime);
      if requestIndex.Some? {
        requestTimestamps := requestTimestamps[..requestIndex.value] + requestTimestamps[requestIndex.value + 1..];
      }
      activeRequests := if activeRequests - 1 > 0 then activeRequests - 1 else 0;
    }
  }

  /** The limiter as example A starts it: an empty list under its cap of 20. */
  method NewExampleLimiter() returns (l: TimestampLimiter)
    ensures fresh(l) && l.Valid() && l.maxConcurrentRequests == ExampleMaxConcurrentRequests
    ensures l.requestTimestamps == [] && l.activeRequests == 0
  {
    l := new TimestampLimiter(ExampleMaxConcurrentRequests);
  }

  /** With example A's cap, a request is admitted once a reading finds every
      listed entry stale. */
  lemma ExampleLimiterProgress(listed: seq<int>, startTime: int, clock: seq<int>, k: nat)
    requires k < |clock| && AllStale(listed, clock[k])
    ensures |Waited(KeepRecent(listed, startTime, StaleAfter), ExampleMaxConcurrentRequests, startTime, clock, 0)|
      < ExampleMaxConcurrentRequests
  {
    CleanupWithin(listed, listed, startTime, StaleAfter);
    WaitedProgress(KeepRecent(listed, startTime, StaleAfter), listed, ExampleMaxConcurrentRequests, startTime, clock, 0, k);
  }

  /** Release keeps the count in step with the list while the request's own
      timestamp is still there; once a cleanup has evicted it, the list stays and
      the count drops anyway, so the two drift apart until the next cleanup. */
  lemma ReleaseKeepsCount(ts: seq<int>, active: int, startTime: int)
    requires active == |ts|
    ensures startTime in ts ==> |RemoveFirst(ts, startTime)| == active - 1
    ensures startTime !in ts && active > 0 ==> |RemoveFirst(ts, startTime)| == active
  {
    if startTime in ts {
      RemoveFirstMeaning(ts, startTime);
      assert |multiset(RemoveFirst(ts, startTime))| == |multiset(ts)| - 1;
    }
  }
}
