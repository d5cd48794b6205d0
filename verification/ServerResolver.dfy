/**
 The server-name resolver: a retry loop with capped exponential backoff and a
 deadline, and the writers of the address it shares. Every write is one step.
 */
module ServerResolver {
  import opened Prelude
  import Text

  const INITIAL_BACKOFF := 2.0
  const MAX_BACKOFF := 60.0
  const DEADLINE := 300.0
  const MAX_CACHE_AGE := 604800.0

  /** What the address library makes of a text. */
  datatype Address = Invalid | V4(text: string, isPrivate: bool) | V6(text: string)

  datatype CacheFile = Missing | Unreadable | Cached(hostname: string, ip: string, age: Option<real>)

  /**
   One turn of the loop as the outside world shapes it: the clock and the stop flag when the loop
   condition is evaluated, the endpoints other threads advertised before that, the outcome of the
   lookup (None when it raises), and whether stop came during the wait. When the condition fails,
   `leaving` and `late` are the stop flag and the advertised endpoints as they are after the loop.
   */
  datatype Turn = Turn(now: real, stopped: bool, advertised: seq<string>, answer: Option<string>,
                       stoppedWaiting: bool, leaving: bool, late: seq<string>)

  datatype Ending = Resolved | Stopped | KeptAddress | FaultRaised

  function Backoff(i: nat): (b: real)
    ensures b > 0.0
  {
    if i == 0 then INITIAL_BACKOFF
    else if Backoff(i - 1) * 2.0 > MAX_BACKOFF then MAX_BACKOFF else Backoff(i - 1) * 2.0
  }

  /** The least time `n` failed attempts spend waiting. */
  function Waited(n: nat): real {
    if n == 0 then 0.0 else Waited(n - 1) + Backoff(n - 1)
  }

  lemma NineWaitsPassTheDeadline()
    ensures Waited(9) == 302.0 && Waited(8) < DEADLINE
  {
    assert Backoff(2) == 8.0 && Backoff(4) == 32.0 && Backoff(5) == 60.0 && Backoff(7) == 60.0;
    assert Waited(3) == 14.0 && Waited(6) == 122.0;
  }

  /** The waits are waited out, and nothing clears the stop flag while the loop runs. */
  ghost predicate WellTimed(turns: nat -> Turn, start: real) {
    && turns(0).now >= start
    && (forall i: nat :: turns(i + 1).now >= turns(i).now + Backoff(i))
    && (forall i: nat :: turns(i).stopped ==> turns(i).leaving)
  }

  class Resolver {
    const address: string
    const parse: string -> Address
    var resolvedIp: Option<string>
    var fault: bool

    /** The address held, if any, is a private IPv4 address in the library's spelling. */
    ghost predicate Valid()
      reads this
    {
      resolvedIp.Some? ==> IsLan(parse, resolvedIp.value)
    }

    constructor (address: string, parse: string -> Address)
      ensures Valid() && this.address == address && this.parse == parse && resolvedIp.None? && !fault
    {
      this.address, this.parse, resolvedIp, fault := address, parse, None, false;
    }

    method SetResolvedIp(ip: string) returns (accepted: bool)
      requires Valid()
      modifies this
      ensures Valid()
      ensures accepted == Acceptable(parse, ip).Some?
      ensures accepted ==> resolvedIp == Acceptable(parse, ip) && !fault
      ensures !accepted ==> resolvedIp == old(resolvedIp) && fault == old(fault)
      ensures forall t :: parse(Text.Strip(ip)) == V4(t, true) ==> accepted && resolvedIp == Some(t)
      ensures (forall t :: parse(Text.Strip(ip)) != V4(t, true)) ==> !accepted
    {
      var parsed := parse(Text.Strip(ip));
      if !parsed.V4? || !parsed.isPrivate { return false; }
      resolvedIp := Some(parsed.text);
      fault := false;
      return true;
    }

    method UpdatePreferredIp(ip: string) returns (accepted: bool)
      requires Valid() && Stable(parse)
      modifies this
      ensures Valid()
      ensures accepted == Acceptable(parse, ip).Some?
      ensures accepted ==> resolvedIp == Acceptable(parse, ip) && !fault
      ensures !accepted ==> resolvedIp == old(resolvedIp) && fault == old(fault)
    {
      var parsed := parse(Text.Strip(ip));
      if !parsed.V4? || !parsed.isPrivate { return false; }
      accepted := SetResolvedIp(parsed.text);
    }

    /** Only a fresh entry for this very host, holding a private IPv4 address, is taken from the cache. */
    method PrimeFromCache(cache: CacheFile)
      requires Valid()
      modifies this
      ensures Valid()
      ensures var usable := cache.Cached? && Text.Strip(cache.hostname) == address
                && cache.age.Some? && cache.age.value <= MAX_CACHE_AGE && Acceptable(parse, cache.ip).Some?
                && Text.Strip(cache.ip) != "";
        if usable then resolvedIp == Acceptable(parse, cache.ip) && !fault
        else resolvedIp == old(resolvedIp) && fault == old(fault)
    {
      if !cache.Cached? { return; }
      var ip := Text.Strip(cache.ip);
      if Text.Strip(cache.hostname) != address { return; }
      if cache.age.None? || cache.age.value > MAX_CACHE_AGE { return; }
      if ip == "" { return; }
      var parsed := parse(ip);
      if !parsed.V4? || !parsed.isPrivate { return; }
      resolvedIp := Some(parsed.text);
      fault := false;
    }

    method ApplyAdvertised(ips: seq<string>)
      requires Valid() && Stable(parse)
      modifies this
      ensures Valid() && (fault ==> old(fault)) && (old(resolvedIp).Some? ==> resolvedIp.Some?)
      ensures resolvedIp.None? ==> NoneUsable(parse, ips)
    {
      for i := 0 to |ips|
        invariant Valid() && (fault ==> old(fault)) && (old(resolvedIp).Some? ==> resolvedIp.Some?)
        invariant resolvedIp.None? ==> forall j :: 0 <= j < i ==> Acceptable(parse, ips[j]).None?
      {
        var _ := UpdatePreferredIp(ips[i]);
      }
    }

    /** One lookup: an answer that is no private IPv4 address counts as a failure. */
    method Attempt(answer: Option<string>) returns (accepted: bool)
      requires Valid()
      modifies this
      ensures Valid() && accepted == !Failed(parse, answer)
      ensures accepted ==> resolvedIp.Some? && resolvedIp == Acceptable(parse, answer.value) && !fault
      ensures !accepted ==> resolvedIp == old(resolvedIp) && fault == old(fault)
    {
      if answer.None? { return false; }
      accepted := SetResolvedIp(answer.value);
    }

    /** One pass through the loop body, the `i`-th, up to the next evaluation of its condition. */
    method Round(turns: nat -> Turn, i: nat) returns (ending: Option<Ending>)
      requires Valid() && Stable(parse)
      requires resolvedIp.None? ==> Fruitless(parse, turns, i)
      modifies this
      ensures Valid() && (fault ==> old(fault)) && (old(resolvedIp).Some? ==> resolvedIp.Some?)
      ensures ending == if !Failed(parse, turns(i).answer) then Some(Resolved)
                        else if turns(i).stoppedWaiting then Some(Stopped) else None
      ensures ending == Some(Resolved) ==> resolvedIp == Acceptable(parse, turns(i).answer.value)
      ensures ending.None? && resolvedIp.None? ==> Fruitless(parse, turns, i + 1)
    {
      var accepted := Attempt(turns(i).answer);
      if accepted { return Some(Resolved); }
      if turns(i).stoppedWaiting { return Some(Stopped); }
      ApplyAdvertised(turns(i + 1).advertised);
      return None;
    }

    /** The retry loop, left with an ending or, at the deadline or when stopped between attempts, without. */
    method Retry(turns: nat -> Turn, start: real) returns (ending: Option<Ending>, attempts: nat)
      requires Valid() && Stable(parse) && WellTimed(turns, start)
      modifies this
      ensures Valid() && attempts <= 9
      ensures (fault ==> old(fault)) && (old(resolvedIp).Some? ==> resolvedIp.Some?)
      ensures ending.None? ==> turns(attempts).stopped || turns(attempts).now >= start + DEADLINE
      ensures ending.None? && resolvedIp.None? ==> Fruitless(parse, turns, attempts)
      ensures ending.Some? ==> attempts > 0
      ensures ending.Some? && !Failed(parse, turns(attempts - 1).answer) ==>
        ending == Some(Resolved) && resolvedIp == Acceptable(parse, turns(attempts - 1).answer.value)
      ensures ending.Some? && Failed(parse, turns(attempts - 1).answer) ==>
        ending == Some(Stopped) && turns(attempts - 1).stoppedWaiting
    {
      var deadline := start + DEADLINE;
      var backoff := INITIAL_BACKOFF;
      attempts, ending := 0, None;
      ApplyAdvertised(turns(0).advertised);
      while !turns(attempts).stopped && turns(attempts).now < deadline
        invariant Valid() && attempts <= 9 && ending.None?
        invariant backoff == Backoff(attempts) && turns(attempts).now >= start + Waited(attempts)
        invariant (fault ==> old(fault)) && (old(resolvedIp).Some? ==> resolvedIp.Some?)
        invariant resolvedIp.None? ==> Fruitless(parse, turns, attempts)
        decreases 9 - attempts
      {
        NineWaitsPassTheDeadline();
        ending := Round(turns, attempts);
        attempts := attempts + 1;
        if ending.Some? { return; }
        backoff := if backoff * 2.0 > MAX_BACKOFF then MAX_BACKOFF else backoff * 2.0;
      }
    }

    /**
     At most nine attempts, whatever fails. The fault is raised exactly when the deadline passes
     unstopped with no address held; then every attempt had failed and nothing usable had been
     advertised.
     */
    method Run(turns: nat -> Turn, start: real) returns (ending: Ending, attempts: nat)
      requires Valid() && Stable(parse) && WellTimed(turns, start)
      modifies this
      ensures Valid() && attempts <= 9
      ensures old(resolvedIp).Some? ==> resolvedIp.Some?
      ensures ending == FaultRaised ==>
        && fault && resolvedIp.None? && Fruitless(parse, turns, attempts) && NoneUsable(parse, turns(attempts).late)
        && !turns(attempts).leaving && turns(attempts).now >= start + DEADLINE
      ensures ending != FaultRaised ==> (fault ==> old(fault))
      ensures ending == Resolved ==>
        && attempts > 0 && !Failed(parse, turns(attempts - 1).answer)
        && resolvedIp == Acceptable(parse, turns(attempts - 1).answer.value)
      ensures ending == Stopped ==> turns(attempts).leaving || (attempts > 0 && turns(attempts - 1).stoppedWaiting)
      ensures ending == KeptAddress ==>
        resolvedIp.Some? && !turns(attempts).leaving && turns(attempts).now >= start + DEADLINE
    {
      var early;
      early, attempts := Retry(turns, start);
      if early.Some? { return early.value, attempts; }
      ApplyAdvertised(turns(attempts).late);
      if turns(attempts).leaving { return Stopped, attempts; }
      if resolvedIp.Some? { return KeptAddress, attempts; }
      fault := true;
      return FaultRaised, attempts;
    }
  }

  /** Nothing usable came in up to the `n`-th evaluation of the loop condition. */
  ghost predicate Fruitless(parse: string -> Address, turns: nat -> Turn, n: nat) {
    && (forall i: nat :: i < n ==> Failed(parse, turns(i).answer))
    && (forall i: nat :: i <= n ==> NoneUsable(parse, turns(i).advertised))
  }

  /** The spelling under which a text is stored, if it denotes a private IPv4 address. */
  function Acceptable(parse: string -> Address, ip: string): Option<string> {
    var parsed := parse(Text.Strip(ip));
    if parsed.V4? && parsed.isPrivate then Some(parsed.text) else None
  }

  predicate NoneUsable(parse: string -> Address, ips: seq<string>) {
    forall i :: 0 <= i < |ips| ==> Acceptable(parse, ips[i]).None?
  }

  predicate Failed(parse: string -> Address, answer: Option<string>) {
    answer.None? || Acceptable(parse, answer.value).None?
  }

  ghost predicate IsLan(parse: string -> Address, ip: string) {
    exists raw :: parse(raw) == V4(ip, true)
  }

  /** The library reads its own spelling of an address back as the same address. */
  ghost predicate Stable(parse: string -> Address) {
    forall raw :: parse(raw).V4? ==> parse(Text.Strip(parse(raw).text)) == parse(raw)
  }
}
