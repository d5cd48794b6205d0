/**
 The camera's login limiter: one attempt touches three buckets, each a fixed
 window with a lockout. A bucket is followed over a whole run of logins.
 */
module LoginLimiter {
  import opened Prelude
  import Text

  const FAILURE_LIMIT := 5
  const FAILURE_WINDOW := 300.0
  const LOCKOUT := 900.0

  datatype Key = Ip(ip: string) | Account(user: string) | IpAccount(ip: string, user: string)

  datatype Entry = Entry(firstFailedAt: real, count: nat, lockedUntil: real)

  type Buckets = map<Key, Entry>

  predicate Distinct(keys: seq<Key>) {
    forall i, j :: 0 <= i < j < |keys| ==> keys[i] != keys[j]
  }

  function NormalUser(username: string): (user: string)
    ensures |user| <= 128
  {
    var lowered := Text.Lower(Text.Strip(username));
    if |lowered| > 128 then lowered[..128] else lowered
  }

  function NormalIp(clientIp: string): (ip: string)
    ensures ip != ""
  {
    var stripped := Text.Strip(clientIp);
    if stripped == "" then "unknown" else stripped
  }

  /** The buckets one login attempt touches. */
  function RateKeys(clientIp: string, username: string): (keys: seq<Key>)
    ensures Distinct(keys)
  {
    var ip, user := NormalIp(clientIp), NormalUser(username);
    [Ip(ip), Account(user), IpAccount(ip, user)]
  }

  predicate Blank(s: string) {
    forall i :: 0 <= i < |s| ==> Text.IsSpace(s[i])
  }

  /** Neither blanks around address and user name nor upper-case letters in the name lead to other buckets. */
  lemma SpellingDoesNotMatter(ip: string, user: string, a: string, b: string, c: string, d: string)
    requires Blank(a) && Blank(b) && Blank(c) && Blank(d)
    ensures RateKeys(a + ip + b, c + Text.Lower(user) + d) == RateKeys(ip, user)
  {
    Text.StripIgnoresOuter(a, ip, b);
    Text.StripIgnoresOuter(c, Text.Lower(user), d);
    Text.LowerCommutes(user);
    Text.LowerTwice(Text.Strip(user));
    assert NormalIp(a + ip + b) == NormalIp(ip);
    assert NormalUser(c + Text.Lower(user) + d) == NormalUser(user);
  }

  function MaxReal(a: real, b: real): real {
    if a >= b then a else b
  }

  function Ceil(x: real): (n: int)
    ensures n as real - 1.0 < x <= n as real
  {
    -((-x).Floor)
  }

  // ----- one bucket -----

  predicate Locked(e: Option<Entry>, now: real) {
    e.Some? && e.value.lockedUntil > now
  }

  /** A bucket after the gate looked at it: an expired, unlocked window is dropped. */
  function Gated(e: Option<Entry>, now: real): Option<Entry> {
    if e.None? || Locked(e, now) then e
    else if now - e.value.firstFailedAt > FAILURE_WINDOW then None else e
  }

  /** A bucket after a failure was recorded in it. */
  function Recorded(e: Option<Entry>, now: real): Entry {
    var s := if e.None? || now - e.value.firstFailedAt > FAILURE_WINDOW then Entry(now, 0, 0.0) else e.value;
    var counted := s.(count := s.count + 1);
    if counted.count >= FAILURE_LIMIT
    then counted.(lockedUntil := MaxReal(counted.lockedUntil, now + LOCKOUT)) else counted
  }

  function Lookup(m: Buckets, k: Key): Option<Entry> {
    if k in m then Some(m[k]) else None
  }

  /** Only bucket `key` changes, to `e`. */
  ghost predicate Updated(m: Buckets, m': Buckets, key: Key, e: Option<Entry>) {
    forall k :: Lookup(m', k) == if k == key then e else Lookup(m, k)
  }

  predicate AnyLocked(m: Buckets, keys: seq<Key>, now: real) {
    exists i :: 0 <= i < |keys| && Locked(Lookup(m, keys[i]), now)
  }

  /** `wait` is the longest remaining lock among the buckets, in seconds rounded up; zero when none is locked. */
  ghost predicate IsLongestWait(m: Buckets, keys: seq<Key>, now: real, wait: int) {
    && wait >= 0
    && (forall i :: 0 <= i < |keys| && Locked(Lookup(m, keys[i]), now) ==> m[keys[i]].lockedUntil - now <= wait as real)
    && (wait > 0 ==> exists i :: 0 <= i < |keys| && Locked(Lookup(m, keys[i]), now)
                                 && m[keys[i]].lockedUntil - now > (wait - 1) as real)
  }

  /** The wait is positive exactly when a bucket is locked. */
  lemma WaitMeansLocked(m: Buckets, keys: seq<Key>, now: real, wait: int)
    requires IsLongestWait(m, keys, now, wait)
    ensures wait > 0 <==> AnyLocked(m, keys, now)
  {
    if AnyLocked(m, keys, now) {
      var i :| 0 <= i < |keys| && Locked(Lookup(m, keys[i]), now);
      assert m[keys[i]].lockedUntil - now <= wait as real;
    }
  }

  lemma WaitOfOne(m: Buckets, key: Key, now: real)
    ensures IsLongestWait(m, [key], now, if Locked(Lookup(m, key), now) then Ceil(m[key].lockedUntil - now) else 0)
  {
    if Locked(Lookup(m, key), now) {
      assert Locked(Lookup(m, [key][0]), now);
    }
  }

  /** The bucket of one more key, after which `m'` differs from `m` in that bucket only. */
  lemma LongestWaitGrows(m: Buckets, m': Buckets, keys: seq<Key>, i: nat, now: real, wait: int, w: int)
    requires i < |keys| && Distinct(keys) && Updated(m, m', keys[i], Lookup(m', keys[i]))
    requires IsLongestWait(m, keys[..i], now, wait) && IsLongestWait(m', [keys[i]], now, w)
    ensures IsLongestWait(m', keys[..i + 1], now, Max(wait, w))
  {
    var before, after := keys[..i], keys[..i + 1];
    forall j | 0 <= j < i
      ensures Lookup(m', after[j]) == Lookup(m, before[j])
    {
      assert keys[j] != keys[i];
    }
    assert after[i] == keys[i] == [keys[i]][0];
    if Max(wait, w) > 0 && wait >= w {
      var j :| 0 <= j < |before| && Locked(Lookup(m, before[j]), now) && m[before[j]].lockedUntil - now > (wait - 1) as real;
      assert Locked(Lookup(m', after[j]), now) && m'[after[j]].lockedUntil - now > (wait - 1) as real;
    }
    forall j | 0 <= j < |after| && Locked(Lookup(m', after[j]), now)
      ensures m'[after[j]].lockedUntil - now <= Max(wait, w) as real
    {
      if j < i {
        assert Locked(Lookup(m, before[j]), now) && m[before[j]].lockedUntil - now <= wait as real;
      } else {
        assert Locked(Lookup(m', [keys[i]][0]), now);
      }
    }
  }

  function AfterGate(m: Buckets, keys: seq<Key>, now: real, k: Key): Option<Entry> {
    if k in keys then Gated(Lookup(m, k), now) else Lookup(m, k)
  }

  function AfterRecord(m: Buckets, keys: seq<Key>, now: real, k: Key): Option<Entry> {
    if k in keys then Some(Recorded(Lookup(m, k), now)) else Lookup(m, k)
  }

  // ----- the dictionary, updated in place -----

  class Limiter {
    var attempts: Buckets

    constructor ()
      ensures attempts == map[]
    {
      attempts := map[];
    }

    /** The gate on one bucket. */
    method GateOne(key: Key, now: real) returns (wait: int)
      modifies this
      ensures Updated(old(attempts), attempts, key, Gated(Lookup(old(attempts), key), now))
      ensures IsLongestWait(old(attempts), [key], now, wait)
    {
      wait := 0;
      WaitOfOne(attempts, key, now);
      if key in attempts {
        var state := attempts[key];
        if state.lockedUntil > now {
          wait := Ceil(state.lockedUntil - now);
        } else if now - state.firstFailedAt > FAILURE_WINDOW {
          attempts := attempts - {key};
        }
      }
    }

    /** Whole seconds until login may be retried: the longest remaining lock of this attempt's buckets, rounded up. */
    method RetryAfter(keys: seq<Key>, now: real) returns (wait: int)
      requires Distinct(keys)
      modifies this
      ensures IsLongestWait(old(attempts), keys, now, wait) && (wait > 0 <==> AnyLocked(old(attempts), keys, now))
      ensures forall k :: Lookup(attempts, k) == AfterGate(old(attempts), keys, now, k)
    {
      wait := 0;
      for i := 0 to |keys|
        invariant IsLongestWait(old(attempts), keys[..i], now, wait)
        invariant forall k :: Lookup(attempts, k) == AfterGate(old(attempts), keys[..i], now, k)
      {
        assert keys[..i + 1] == keys[..i] + [keys[i]];
        assert Lookup(attempts, keys[i]) == Lookup(old(attempts), keys[i]);
        var w := GateOne(keys[i], now);
        LongestWaitGrows(old(attempts), old(attempts), keys, i, now, wait, w);
        wait := Max(wait, w);
      }
      assert keys[..|keys|] == keys;
      WaitMeansLocked(old(attempts), keys, now, wait);
    }

    /** A failure recorded in one bucket. */
    method RecordOne(key: Key, now: real) returns (wait: int)
      modifies this
      ensures Updated(old(attempts), attempts, key, Some(Recorded(Lookup(old(attempts), key), now)))
      ensures IsLongestWait(attempts, [key], now, wait)
    {
      var state := if key !in attempts || now - attempts[key].firstFailedAt > FAILURE_WINDOW
                   then Entry(now, 0, 0.0) else attempts[key];
      state := state.(count := state.count + 1);
      if state.count >= FAILURE_LIMIT {
        state := state.(lockedUntil := MaxReal(state.lockedUntil, now + LOCKOUT));
      }
      attempts := attempts[key := state];
      wait := if state.lockedUntil > now then Ceil(state.lockedUntil - now) else 0;
      WaitOfOne(attempts, key, now);
    }

    method RecordFailed(keys: seq<Key>, now: real) returns (wait: int)
      requires Distinct(keys)
      modifies this
      ensures IsLongestWait(attempts, keys, now, wait) && (wait > 0 <==> AnyLocked(attempts, keys, now))
      ensures forall k :: Lookup(attempts, k) == AfterRecord(old(attempts), keys, now, k)
    {
      wait := 0;
      for i := 0 to |keys|
        invariant IsLongestWait(attempts, keys[..i], now, wait)
        invariant forall k :: Lookup(attempts, k) == AfterRecord(old(attempts), keys[..i], now, k)
      {
        assert keys[..i + 1] == keys[..i] + [keys[i]];
        assert Lookup(attempts, keys[i]) == Lookup(old(attempts), keys[i]);
        ghost var before := attempts;
        var w := RecordOne(keys[i], now);
        LongestWaitGrows(before, attempts, keys, i, now, wait, w);
        wait := Max(wait, w);
      }
      assert keys[..|keys|] == keys;
      WaitMeansLocked(attempts, keys, now, wait);
    }

    method ResetAttempts(keys: seq<Key>)
      modifies this
      ensures forall k :: Lookup(attempts, k) ==
                              if k in keys then None else Lookup(old(attempts), k)
    {
      for i := 0 to |keys|
        invariant forall k :: Lookup(attempts, k) == if k in keys[..i] then None else Lookup(old(attempts), k)
      {
        assert keys[..i + 1] == keys[..i] + [keys[i]];
        attempts := attempts - {keys[i]};
      }
    }

    /** One login request: the gate reads the clock at `x.gate`, a failure is recorded at `x.record`. */
    method Login(x: Attempt) returns (outcome: Outcome)
      modifies this
      ensures outcome == Judge(old(attempts), x)
      ensures Follows(old(attempts), x, attempts)
    {
      var keys := x.Keys();
      var wait := RetryAfter(keys, x.gate);
      if wait > 0 { return Refused; }
      if x.passwordOk {
        ResetAttempts(keys);
        return Accepted;
      }
      var _ := RecordFailed(keys, x.record);
      return Failed;
    }
  }

  // ----- runs of logins -----

  datatype Attempt = Attempt(clientIp: string, username: string, gate: real, record: real, passwordOk: bool)
  {
    function Keys(): (keys: seq<Key>)
      ensures Distinct(keys)
    {
      RateKeys(clientIp, username)
    }
  }
  datatype Outcome = Refused | Accepted | Failed

  function Judge(m: Buckets, x: Attempt): Outcome {
    if AnyLocked(m, x.Keys(), x.gate) then Refused
    else if x.passwordOk then Accepted else Failed
  }

  /** An entry of a bucket the request touches, after the request. */
  function Touched(e: Option<Entry>, outcome: Outcome, x: Attempt): Option<Entry> {
    match outcome
    case Refused => Gated(e, x.gate)
    case Accepted => None
    case Failed => Some(Recorded(Gated(e, x.gate), x.record))
  }

  /** Bucket `k` after the request. */
  function After(m: Buckets, x: Attempt, k: Key): Option<Entry> {
    if k in x.Keys() then Touched(Lookup(m, k), Judge(m, x), x) else Lookup(m, k)
  }

  /** A run: the dictionaries before the first, between, and after the last request. */
  ghost predicate IsRun(ms: seq<Buckets>, xs: seq<Attempt>) {
    && |ms| == |xs| + 1 && ms[0] == map[]
    && (forall i :: 0 <= i < |xs| ==> xs[i].gate <= xs[i].record)
    && (forall i :: 0 <= i < |xs| - 1 ==> xs[i].record <= xs[i + 1].gate)
    && (forall i :: 0 <= i < |xs| ==> Follows(ms[i], xs[i], ms[i + 1]))
  }

  ghost predicate Follows(m: Buckets, x: Attempt, m': Buckets) {
    forall k :: Lookup(m', k) == After(m, x, k)
  }

  /** One recorded failure of a bucket: its time, the count it brought, and when its window began. */
  datatype Failure = Failure(at: real, count: nat, first: real)

  function FailureOf(e: Entry, at: real): Failure {
    Failure(at, e.count, e.firstFailedAt)
  }

  /** The failures of a bucket the request touches, whose entry is `e`, after the request. */
  function FailuresAfter(f: seq<Failure>, e: Option<Entry>, outcome: Outcome, x: Attempt): seq<Failure> {
    match outcome
    case Refused => f
    case Accepted => []
    case Failed => f + [FailureOf(Recorded(Gated(e, x.gate), x.record), x.record)]
  }

  /** The failures recorded in bucket `k` since its last successful login. */
  ghost function Failures(ms: seq<Buckets>, xs: seq<Attempt>, k: Key): seq<Failure>
    requires |ms| == |xs| + 1
  {
    if |xs| == 0 then []
    else
      var n := |xs| - 1;
      var before := Failures(ms[..n + 1], xs[..n], k);
      if k in xs[n].Keys() then FailuresAfter(before, Lookup(ms[n], k), Judge(ms[n], xs[n]), xs[n]) else before
  }

  /** Two failures in a row: the next of the same window, or the first of a new one. */
  predicate Next(a: Failure, b: Failure) {
    && a.at <= b.at
    && (|| (b.count == a.count + 1 && b.first == a.first && b.at <= a.first + FAILURE_WINDOW)
        || (b.count == 1 && b.first == b.at && b.at > a.first + FAILURE_WINDOW))
    && (a.count == FAILURE_LIMIT ==> b.count == 1 && b.at >= a.at + LOCKOUT)
  }

  /**
   The shape of a bucket's failures: counts climb from 1 to at most 5 within a window of
   300 seconds, a new window begins only after the old one has expired, and a fifth failure
   is followed by 900 silent seconds.
   */
  predicate WellSpaced(f: seq<Failure>) {
    && (|f| > 0 ==> f[0].count == 1 && f[0].first == f[0].at)
    && (forall i :: 0 <= i < |f| ==> 1 <= f[i].count <= FAILURE_LIMIT && f[i].first <= f[i].at)
    && (forall i :: 0 < i < |f| ==> Next(f[i - 1], f[i]))
  }

  /** How a bucket's entry remembers its failures. */
  predicate Remembers(e: Option<Entry>, f: seq<Failure>, now: real) {
    && WellSpaced(f)
    && (e.None? && |f| > 0 ==>
          var last := f[|f| - 1];
          last.at <= now && now > last.first + FAILURE_WINDOW && (last.count == FAILURE_LIMIT ==> now >= last.at + LOCKOUT))
    && (e.Some? ==>
          && |f| > 0
          && var last := f[|f| - 1];
             && last.at <= now && FailureOf(e.value, last.at) == last
             && e.value.lockedUntil == if last.count == FAILURE_LIMIT then last.at + LOCKOUT else 0.0)
  }

  lemma Waiting(e: Option<Entry>, f: seq<Failure>, before: real, now: real)
    requires Remembers(e, f, before) && before <= now
    ensures Remembers(e, f, now)
  {
  }

  lemma TouchPreserves(e: Option<Entry>, f: seq<Failure>, outcome: Outcome, x: Attempt)
    requires Remembers(e, f, x.gate) && 0.0 <= x.gate <= x.record
    requires outcome == Failed ==> !Locked(e, x.gate)
    ensures Remembers(Touched(e, outcome, x), FailuresAfter(f, e, outcome, x), x.record)
  {
  }

  lemma FailedMeansUnlocked(m: Buckets, x: Attempt, k: Key)
    requires k in x.Keys() && Judge(m, x) == Failed
    ensures !Locked(Lookup(m, k), x.gate)
  {
  }

  /** One request in a run, seen from one bucket. */
  lemma RequestPreserves(m: Buckets, m': Buckets, x: Attempt, k: Key, f: seq<Failure>)
    requires Follows(m, x, m') && Remembers(Lookup(m, k), f, x.gate) && 0.0 <= x.gate <= x.record
    ensures Remembers(Lookup(m', k),
      if k in x.Keys() then FailuresAfter(f, Lookup(m, k), Judge(m, x), x) else f, x.record)
  {
    assert Lookup(m', k) == After(m, x, k);
    if k in x.Keys() {
      var outcome := Judge(m, x);
      if outcome == Failed { FailedMeansUnlocked(m, x, k); }
      TouchPreserves(Lookup(m, k), f, outcome, x);
    } else {
      Waiting(Lookup(m, k), f, x.gate, x.record);
    }
  }

  /** A run without its last request, and what is known of that request. */
  lemma LastRequest(ms: seq<Buckets>, xs: seq<Attempt>)
    requires IsRun(ms, xs) && |xs| > 0 && xs[0].gate >= 0.0
    ensures var n := |xs| - 1; var x := xs[n];
      && IsRun(ms[..n + 1], xs[..n]) && ms[..n + 1][n] == ms[n]
      && Follows(ms[n], x, ms[n + 1]) && 0.0 <= x.gate <= x.record
      && (n > 0 ==> xs[..n][0].gate >= 0.0 && xs[..n][n - 1].record <= x.gate)
  {
    GatesAreTimes(ms, xs, |xs| - 1);
  }

  /** Over any run of logins every bucket's failures are well spaced, and its entry remembers them. */
  lemma {:induction false} BucketsRemember(ms: seq<Buckets>, xs: seq<Attempt>, k: Key, now: real)
    requires IsRun(ms, xs) && (|xs| > 0 ==> xs[0].gate >= 0.0)
    requires now >= 0.0 && (|xs| > 0 ==> xs[|xs| - 1].record <= now)
    ensures Remembers(Lookup(ms[|xs|], k), Failures(ms, xs, k), now)
  {
    if |xs| > 0 {
      var n := |xs| - 1;
      var x, f := xs[n], Failures(ms[..n + 1], xs[..n], k);
      LastRequest(ms, xs);
      BucketsRemember(ms[..n + 1], xs[..n], k, x.gate);
      RequestPreserves(ms[n], ms[n + 1], x, k, f);
      Waiting(Lookup(ms[n + 1], k), Failures(ms, xs, k), x.record, now);
    }
  }

  lemma {:induction false} GatesAreTimes(ms: seq<Buckets>, xs: seq<Attempt>, n: nat)
    requires IsRun(ms, xs) && n < |xs| && xs[0].gate >= 0.0
    ensures xs[n].gate >= 0.0
  {
    if n > 0 {
      GatesAreTimes(ms, xs, n - 1);
    }
  }

  // ----- the bounds -----

  /** From a failure of count `c` the next window starts within 6 - c failures, and exactly there only after a lockout. */
  lemma {:induction false} NextWindow(f: seq<Failure>, i: nat) returns (j: nat)
    requires WellSpaced(f) && i < |f| && i + 6 - f[i].count < |f|
    ensures i < j <= i + 6 - f[i].count && f[j].count == 1 && f[j].first == f[j].at
    ensures f[j].at > f[i].first + FAILURE_WINDOW
    ensures j == i + 6 - f[i].count ==> f[j].at >= f[i].at + LOCKOUT
    decreases 6 - f[i].count
  {
    assert Next(f[i], f[i + 1]);
    if f[i + 1].count == 1 {
      j := i + 1;
    } else {
      j := NextWindow(f, i + 1);
    }
  }

  lemma {:induction false} TimesClimb(f: seq<Failure>, i: nat, j: nat)
    requires WellSpaced(f) && i <= j < |f|
    ensures f[i].at <= f[j].at
    decreases j - i
  {
    if i < j {
      assert Next(f[j - 1], f[j]);
      TimesClimb(f, i, j - 1);
    }
  }

  lemma NineSpanMoreThanAWindow(f: seq<Failure>, i: nat)
    requires WellSpaced(f) && i + 8 < |f|
    ensures f[i + 8].at > f[i].at + FAILURE_WINDOW
  {
    var j := NextWindow(f, i);
    if f[i].count == 1 {
      assert f[i].first == f[i].at by { if i > 0 { assert Next(f[i - 1], f[i]); } }
      TimesClimb(f, j, i + 8);
    } else if j == i + 6 - f[i].count {
      TimesClimb(f, j, i + 8);
    } else {
      var j' := NextWindow(f, j);
      TimesClimb(f, i, j);
      TimesClimb(f, j', i + 8);
    }
  }

  /**
   The promise: in every bucket, over every run, counts stay within 5, the failures recorded in
   any 300-second interval since the last successful login are at most 8 in a row, and a fifth
   failure is followed by none for 900 seconds.
   */
  lemma LoginFailureBounds(ms: seq<Buckets>, xs: seq<Attempt>, k: Key)
    requires IsRun(ms, xs) && (|xs| > 0 ==> xs[0].gate >= 0.0)
    ensures var f := Failures(ms, xs, k);
      && (forall i :: 0 <= i < |f| ==> 1 <= f[i].count <= FAILURE_LIMIT)
      && (forall i, j :: 0 <= i <= j < |f| && f[j].at - f[i].at <= FAILURE_WINDOW ==> j - i + 1 <= 8)
      && (forall i, j :: 0 <= i < j < |f| && f[i].count == FAILURE_LIMIT ==> f[j].at >= f[i].at + LOCKOUT)
  {
    var f := Failures(ms, xs, k);
    if |xs| > 0 {
      GatesAreTimes(ms, xs, |xs| - 1);
    }
    BucketsRemember(ms, xs, k, if |xs| > 0 then xs[|xs| - 1].record else 0.0);
    forall i, j | 0 <= i <= j < |f| && f[j].at - f[i].at <= FAILURE_WINDOW
      ensures j - i + 1 <= 8
    {
      if i + 8 <= j {
        NineSpanMoreThanAWindow(f, i);
        TimesClimb(f, i + 8, j);
      }
    }
    forall i, j | 0 <= i < j < |f| && f[i].count == FAILURE_LIMIT
      ensures f[j].at >= f[i].at + LOCKOUT
    {
      assert Next(f[i], f[i + 1]);
      TimesClimb(f, i + 1, j);
    }
  }

  // ----- what a request is answered -----

  /** A fifth failure in the bucket, less than 900 seconds before the request. */
  ghost predicate HoldsFifth(f: seq<Failure>, gate: real) {
    exists i :: 0 <= i < |f| && f[i].count == 5 && gate < f[i].at + 900.0
  }

  /** A bucket's entry is locked exactly by a recent fifth failure. */
  lemma LockedMeansFifth(e: Option<Entry>, f: seq<Failure>, now: real)
    requires Remembers(e, f, now) && now >= 0.0
    ensures Locked(e, now) <==> HoldsFifth(f, now)
  {
    var n := |f| - 1;
    if Locked(e, now) {
      assert f[n].count == FAILURE_LIMIT && now < f[n].at + LOCKOUT;
    }
    if HoldsFifth(f, now) {
      var i :| 0 <= i < |f| && f[i].count == 5 && now < f[i].at + 900.0;
      if i < n {
        assert Next(f[i], f[i + 1]);
        TimesClimb(f, i + 1, n);
      }
    }
  }

  lemma {:induction false} RunPrefix(ms: seq<Buckets>, xs: seq<Attempt>, n: nat)
    requires IsRun(ms, xs) && n <= |xs|
    ensures IsRun(ms[..n + 1], xs[..n]) && ms[..n + 1][n] == ms[n]
  {
  }

  lemma BucketBefore(ms: seq<Buckets>, xs: seq<Attempt>, n: nat, k: Key)
    requires IsRun(ms, xs) && n < |xs| && xs[0].gate >= 0.0
    ensures Locked(Lookup(ms[n], k), xs[n].gate) <==> HoldsFifth(Failures(ms[..n + 1], xs[..n], k), xs[n].gate)
  {
    RunPrefix(ms, xs, n);
    GatesAreTimes(ms, xs, n);
    assert n > 0 ==> xs[n - 1].record <= xs[n].gate;
    BucketsRemember(ms[..n + 1], xs[..n], k, xs[n].gate);
    LockedMeansFifth(Lookup(ms[n], k), Failures(ms[..n + 1], xs[..n], k), xs[n].gate);
  }

  /** One of the request's three buckets holds a fifth failure from the last 900 seconds. */
  ghost predicate LockedOut(ms: seq<Buckets>, xs: seq<Attempt>, n: nat)
    requires |ms| == |xs| + 1 && n < |xs|
  {
    exists i :: 0 <= i < |xs[n].Keys()| && HoldsFifth(Failures(ms[..n + 1], xs[..n], xs[n].Keys()[i]), xs[n].gate)
  }

  /**
   Over every run: a request is refused exactly when one of its buckets saw a fifth failure less than
   900 seconds ago, whatever the password; otherwise it is accepted exactly when the password is right.
   */
  lemma AnswersReadOffFailures(ms: seq<Buckets>, xs: seq<Attempt>, n: nat)
    requires IsRun(ms, xs) && n < |xs| && xs[0].gate >= 0.0
    ensures Judge(ms[n], xs[n]) == Refused <==> LockedOut(ms, xs, n)
    ensures !LockedOut(ms, xs, n) ==> Judge(ms[n], xs[n]) == if xs[n].passwordOk then Accepted else Failed
  {
    var x, keys := xs[n], xs[n].Keys();
    forall i | 0 <= i < |keys|
      ensures Locked(Lookup(ms[n], keys[i]), x.gate) <==> HoldsFifth(Failures(ms[..n + 1], xs[..n], keys[i]), x.gate)
    {
      BucketBefore(ms, xs, n, keys[i]);
    }
    JudgeByLocks(ms[n], x, keys);
  }

  lemma JudgeByLocks(m: Buckets, x: Attempt, keys: seq<Key>)
    requires keys == x.Keys()
    ensures Judge(m, x) == Refused <==> exists i :: 0 <= i < |keys| && Locked(Lookup(m, keys[i]), x.gate)
    ensures Judge(m, x) != Refused ==> Judge(m, x) == if x.passwordOk then Accepted else Failed
  {
  }
}
