/** The setup endpoint's sliding-window limiter, per client address. */
module SetupLimiter {
  import opened Prelude

  const RATE_WINDOW := 60.0
  const RATE_MAX := 30

  /** The admissions still counted at `now`. */
  function Recent(times: seq<real>, now: real): (r: seq<real>) {
    if |times| == 0 then []
    else if now - times[0] < RATE_WINDOW then [times[0]] + Recent(times[1..], now)
    else Recent(times[1..], now)
  }

  predicate Sorted(times: seq<real>) {
    forall i, j :: 0 <= i < j < |times| ==> times[i] <= times[j]
  }

  lemma {:induction false} RecentAppend(times: seq<real>, t: real, now: real)
    ensures Recent(times + [t], now) == Recent(times, now) + (if now - t < RATE_WINDOW then [t] else [])
  {
    if |times| == 0 {
    } else {
      assert (times + [t])[1..] == times[1..] + [t];
      RecentAppend(times[1..], t, now);
    }
  }

  /** Pruning at an earlier time loses nothing that a later pruning would keep. */
  lemma {:induction false} RecentTwice(times: seq<real>, now: real, later: real)
    requires now <= later
    ensures Recent(Recent(times, now), later) == Recent(times, later)
  {
    if |times| > 0 {
      RecentTwice(times[1..], now, later);
      if now - times[0] < RATE_WINDOW {
        assert Recent(times, now)[1..] == Recent(times[1..], now);
      }
    }
  }

  /** On sorted times the recent ones are a suffix. */
  lemma {:induction false} RecentIsSuffix(times: seq<real>, now: real, i: nat)
    requires Sorted(times) && i < |times| && now - times[i] < RATE_WINDOW
    ensures |Recent(times, now)| >= |times| - i
  {
    if i == 0 {
      AllRecent(times, now);
    } else {
      RecentIsSuffix(times[1..], now, i - 1);
    }
  }

  lemma {:induction false} AllRecent(times: seq<real>, now: real)
    requires Sorted(times) && (|times| > 0 ==> now - times[0] < RATE_WINDOW)
    ensures Recent(times, now) == times
  {
    if |times| > 1 {
      assert times[0] <= times[1];
      AllRecent(times[1..], now);
    }
  }

  function Stored(store: map<string, seq<real>>, ip: string): seq<real> {
    if ip in store then store[ip] else []
  }

  class SetupRateLimiter {
    var store: map<string, seq<real>>

    constructor ()
      ensures store == map[]
    {
      store := map[];
    }

    method RateLimited(ip: string, now: real) returns (limited: bool)
      modifies this
      ensures (limited, store) == Serve(old(store), ip, now)
    {
      var kept, attempts := Stored(store, ip), [];
      for i := 0 to |kept|
        invariant attempts == Recent(kept[..i], now) && store == old(store)
      {
        RecentAppend(kept[..i], kept[i], now);
        assert kept[..i + 1] == kept[..i] + [kept[i]];
        if now - kept[i] < RATE_WINDOW {
          attempts := attempts + [kept[i]];
        }
      }
      assert kept[..|kept|] == kept;
      store := store[ip := attempts];
      if |attempts| >= RATE_MAX { return true; }
      attempts := attempts + [now];
      store := store[ip := attempts];
      assert store == old(store)[ip := attempts];
      return false;
    }
  }

  /** One request: is it refused, and the store afterwards. */
  function Serve(store: map<string, seq<real>>, ip: string, now: real): (bool, map<string, seq<real>>) {
    var recent := Recent(Stored(store, ip), now);
    if |recent| >= RATE_MAX then (true, store[ip := recent]) else (false, store[ip := recent + [now]])
  }

  datatype Request = Request(ip: string, now: real)

  function StoreAfter(reqs: seq<Request>): map<string, seq<real>> {
    if |reqs| == 0 then map[]
    else Serve(StoreAfter(reqs[..|reqs| - 1]), reqs[|reqs| - 1].ip, reqs[|reqs| - 1].now).1
  }

  /** Every admission ever granted to `ip`. */
  function Admitted(reqs: seq<Request>, ip: string): seq<real> {
    if |reqs| == 0 then []
    else
      var before, x := reqs[..|reqs| - 1], reqs[|reqs| - 1];
      Admitted(before, ip) + (if x.ip == ip && !Serve(StoreAfter(before), ip, x.now).0 then [x.now] else [])
  }

  predicate MonotoneClock(reqs: seq<Request>) {
    forall i, j :: 0 <= i < j < |reqs| ==> reqs[i].now <= reqs[j].now
  }

  predicate WindowBound(times: seq<real>) {
    forall i :: 0 <= i < |times| - RATE_MAX ==> times[i + RATE_MAX] - times[i] >= RATE_WINDOW
  }

  lemma {:induction false} AdmittedIsSorted(reqs: seq<Request>, ip: string)
    requires MonotoneClock(reqs)
    ensures Sorted(Admitted(reqs, ip))
    ensures forall i :: 0 <= i < |Admitted(reqs, ip)| ==> |reqs| > 0 && Admitted(reqs, ip)[i] <= reqs[|reqs| - 1].now
  {
    if |reqs| > 0 {
      var before := reqs[..|reqs| - 1];
      AdmittedIsSorted(before, ip);
      assert |before| > 0 ==> before[|before| - 1].now <= reqs[|reqs| - 1].now;
    }
  }

  /**
   The pruned list is the whole admission history cut to ages under 60 seconds: at the request
   that wrote it, and for every later pruning.
   */
  lemma {:induction false} StoreIsRecentHistory(reqs: seq<Request>, ip: string, later: real)
    requires MonotoneClock(reqs) && (|reqs| > 0 ==> reqs[|reqs| - 1].now <= later)
    ensures Recent(Stored(StoreAfter(reqs), ip), later) == Recent(Admitted(reqs, ip), later)
    ensures |reqs| > 0 && reqs[|reqs| - 1].ip == ip ==>
      Stored(StoreAfter(reqs), ip) == Recent(Admitted(reqs, ip), reqs[|reqs| - 1].now)
  {
    if |reqs| > 0 {
      var before, x := reqs[..|reqs| - 1], reqs[|reqs| - 1];
      StoreIsRecentHistory(before, ip, later);
      StoreIsRecentHistory(before, ip, x.now);
      var stored, history := Stored(StoreAfter(before), ip), Admitted(before, ip);
      assert history + [] == history;
      if x.ip == ip {
        var recent := Recent(stored, x.now);
        RecentTwice(stored, x.now, later);
        if |recent| < RATE_MAX {
          RecentAppend(recent, x.now, later);
          RecentAppend(history, x.now, later);
          RecentAppend(history, x.now, x.now);
        }
      }
    }
  }

  /** In any run on a non-decreasing clock, thirty-one admissions of one address span at least 60 seconds. */
  lemma {:induction false} AtMostThirtyPerWindow(reqs: seq<Request>, ip: string)
    requires MonotoneClock(reqs)
    ensures WindowBound(Admitted(reqs, ip))
  {
    if |reqs| > 0 {
      var before, x := reqs[..|reqs| - 1], reqs[|reqs| - 1];
      AtMostThirtyPerWindow(before, ip);
      StoreIsRecentHistory(before, ip, x.now);
      AdmittedIsSorted(before, ip);
      var history := Admitted(before, ip);
      var oldest := |history| - RATE_MAX;
      if x.ip == ip && oldest >= 0 && x.now - history[oldest] < RATE_WINDOW {
        RecentIsSuffix(history, x.now, oldest);
      }
    }
  }

  /** On sorted times nothing up to an expired one is recent. */
  lemma {:induction false} RecentIsShort(times: seq<real>, now: real, i: nat)
    requires Sorted(times) && i < |times| && now - times[i] >= RATE_WINDOW
    ensures |Recent(times, now)| < |times| - i
  {
    assert now - times[0] >= RATE_WINDOW;
    if i == 0 {
      RecentIsNoLonger(times[1..], now);
    } else {
      RecentIsShort(times[1..], now, i - 1);
    }
  }

  lemma {:induction false} RecentIsNoLonger(times: seq<real>, now: real)
    ensures |Recent(times, now)| <= |times|
  {
    if |times| > 0 {
      RecentIsNoLonger(times[1..], now);
    }
  }

  /**
   A request is refused exactly when thirty requests of its address were admitted less than 60 seconds
   before it: when the thirtieth admission back is that young.
   */
  lemma RefusedMeansThirty(reqs: seq<Request>, ip: string, now: real)
    requires MonotoneClock(reqs) && (|reqs| > 0 ==> reqs[|reqs| - 1].now <= now)
    ensures var history := Admitted(reqs, ip);
      Serve(StoreAfter(reqs), ip, now).0 <==> |history| >= 30 && now - history[|history| - 30] < 60.0
  {
    var history := Admitted(reqs, ip);
    StoreIsRecentHistory(reqs, ip, now);
    AdmittedIsSorted(reqs, ip);
    if |history| < RATE_MAX {
      RecentIsNoLonger(history, now);
    } else if now - history[|history| - RATE_MAX] < RATE_WINDOW {
      RecentIsSuffix(history, now, |history| - RATE_MAX);
    } else {
      RecentIsShort(history, now, |history| - RATE_MAX);
    }
  }
}
