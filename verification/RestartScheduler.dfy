/**
 The scheduler above the schedule: one decision per scheduled minute, kept in memory
 and in a state file that survives a restart of the process.
 */
module RestartScheduler {
  import opened Prelude
  import opened RestartSchedule

  /** What one process remembers, and what the state file records under "camera". */
  datatype Memory = Memory(lastRuntimeKey: Option<int>, recorded: Option<int>)

  datatype Decision = Reboot | SkippedBusy

  /**
   One turn: a check at `now`, whose minute key under the schedule configured then is `key`, with
   OTA busy or not, the state file readable or not and replaceable or not; or the process is
   started again.
   */
  datatype Turn =
    | Check(now: int, key: Option<int>, busy: bool, readable: bool, writable: bool)
    | ProcessRestart

  /** A key names the minute of its check. */
  predicate KeyFits(x: Turn) {
    x.Check? && x.key.Some? ==> x.key.value == MinuteOf(x.now)
  }

  /** The check has a minute to decide that neither this process nor what it can read of the file has settled. */
  predicate Undecided(m: Memory, x: Turn) {
    x.Check? && x.key.Some? && x.key != m.lastRuntimeKey && !(x.readable && x.key == m.recorded)
  }

  /** The decision a check takes. Failing to record it raises, before any reboot is requested. */
  function Decide(m: Memory, x: Turn): Option<(int, Decision)> {
    if !Undecided(m, x) || !x.writable then None
    else Some((x.key.value, if x.busy then SkippedBusy else Reboot))
  }

  function After(m: Memory, x: Turn): Memory {
    if x.ProcessRestart? then m.(lastRuntimeKey := None)
    else
      match Decide(m, x)
      case None => m
      case Some((key, SkippedBusy)) => m.(recorded := Some(key))
      case Some((key, Reboot)) => Memory(Some(key), Some(key))
  }

  /** The state file's dictionary. A file that is missing, unreadable or malformed reads as an empty one. */
  datatype Entries = Entries(camera: Option<int>, others: map<string, string>)

  const NOTHING := Entries(None, map[])

  /** How the operating system treats one update of the state file: the read, the temporary file, the rename. */
  datatype Update = Update(readable: bool, tmpWritable: bool, renamable: bool)
  {
    predicate Succeeds() {
      tmpWritable && renamable
    }
  }

  class StateFile {
    var entries: Entries
    /** The temporary file; None when absent or cut short. */
    var tmp: Option<Entries>

    constructor (entries: Entries)
      ensures this.entries == entries && tmp.None?
    {
      this.entries, tmp := entries, None;
    }

    method ReadState(readable: bool) returns (e: Entries)
      ensures e == if readable then entries else NOTHING
    {
      e := if readable then entries else NOTHING;
    }

    /** The new dictionary goes to a temporary file first, which is then renamed over the old one. */
    method WriteState(e: Entries, u: Update) returns (raised: bool)
      modifies this
      ensures raised == !u.Succeeds()
      ensures entries == if raised then old(entries) else e
    {
      if !u.tmpWritable {
        tmp := None;
        return true;
      }
      tmp := Some(e);
      if !u.renamable { return true; }
      entries, tmp := tmp.value, None;
      return false;
    }

    /** The record is replaced whole or not at all; the other entries survive exactly when they could be read. */
    method MarkRun(key: int, u: Update) returns (raised: bool)
      modifies this
      ensures raised == !u.Succeeds()
      ensures raised ==> entries == old(entries)
      ensures !raised ==>
        entries.camera == Some(key) && entries.others == if u.readable then old(entries.others) else map[]
    {
      var e := ReadState(u.readable);
      raised := WriteState(e.(camera := Some(key)), u);
    }
  }

  class Scheduler {
    const state: StateFile
    var lastRuntimeKey: Option<int>

    ghost function View(): Memory
      reads this, state
    {
      Memory(lastRuntimeKey, state.entries.camera)
    }

    constructor (state: StateFile)
      ensures this.state == state && View() == Memory(None, state.entries.camera)
    {
      this.state := state;
      lastRuntimeKey := None;
    }

    /** A check raises exactly when it has a minute to decide and cannot record the decision. */
    method CheckOnce(now: int, schedule: RawSchedule, busy: bool, readable: bool, u: Update)
      returns (reboot: bool, raised: bool)
      modifies this, state
      ensures var x := Check(now, ScheduledMinuteKey(now, schedule), busy, readable, u.Succeeds());
        && KeyFits(x) && View() == After(old(View()), x)
        && (reboot <==> Decide(old(View()), x).Some? && Decide(old(View()), x).value.1 == Reboot)
        && (raised <==> Undecided(old(View()), x) && !x.writable)
    {
      var key := ScheduledMinuteKey(now, schedule);
      ScheduledKeysFit(now, schedule, busy, readable, u.Succeeds());
      reboot, raised := CheckKey(now, key, busy, readable, u);
    }

    method CheckKey(now: int, key: Option<int>, busy: bool, readable: bool, u: Update)
      returns (reboot: bool, raised: bool)
      modifies this, state
      ensures var x := Check(now, key, busy, readable, u.Succeeds());
        && View() == After(old(View()), x)
        && (reboot <==> Decide(old(View()), x).Some? && Decide(old(View()), x).value.1 == Reboot)
        && (raised <==> Undecided(old(View()), x) && !x.writable)
    {
      reboot, raised := false, false;
      if key.None? { return; }
      if key == lastRuntimeKey { return; }
      var e := state.ReadState(readable);
      if e.camera == key { return; }
      if busy {
        raised := state.MarkRun(key.value, u);
        return;
      }
      raised := state.MarkRun(key.value, u);
      if raised { return; }
      lastRuntimeKey := key;
      reboot := true;
    }
  }

  lemma ScheduledKeysFit(now: int, schedule: RawSchedule, busy: bool, readable: bool, writable: bool)
    ensures KeyFits(Check(now, ScheduledMinuteKey(now, schedule), busy, readable, writable))
  {
  }

  // ----- runs -----

  function MemoryAfter(m: Memory, xs: seq<Turn>): Memory {
    if |xs| == 0 then m else After(MemoryAfter(m, xs[..|xs| - 1]), xs[|xs| - 1])
  }

  /** The log entry, if any, that decision `d` of turn `n` makes. */
  function Entry(d: Option<(int, Decision)>, n: nat): seq<(int, Decision, nat)> {
    if d.Some? then [(d.value.0, d.value.1, n)] else []
  }

  /** All decisions of a run, with the turn that took each. */
  function Decisions(m: Memory, xs: seq<Turn>): seq<(int, Decision, nat)> {
    if |xs| == 0 then []
    else
      var n := |xs| - 1;
      Decisions(m, xs[..n]) + Entry(Decide(MemoryAfter(m, xs[..n]), xs[n]), n)
  }

  predicate MonotoneClock(xs: seq<Turn>) {
    forall i, j :: 0 <= i < j < |xs| && xs[i].Check? && xs[j].Check? ==> xs[i].now <= xs[j].now
  }

  /** The file holds the newest decision, and what the process remembers was decided. */
  ghost predicate Recorded(m0: Memory, m: Memory, ds: seq<(int, Decision, nat)>) {
    && (m.recorded == if |ds| > 0 then Some(ds[|ds| - 1].0) else m0.recorded)
    && (m.lastRuntimeKey.Some? ==> m.lastRuntimeKey == m0.lastRuntimeKey
                                   || exists i :: 0 <= i < |ds| && Some(ds[i].0) == m.lastRuntimeKey)
  }

  /** The decided minutes are those of the deciding checks, in order. */
  ghost predicate Logged(xs: seq<Turn>, ds: seq<(int, Decision, nat)>) {
    && (forall i, j :: 0 <= i < j < |ds| ==> ds[i].0 <= ds[j].0 && ds[i].2 < ds[j].2)
    && (forall i :: 0 <= i < |ds| ==> ds[i].2 < |xs| && xs[ds[i].2].Check? && ds[i].0 == MinuteOf(xs[ds[i].2].now))
  }

  /** No minute is decided twice, nor is the one recorded before the run decided again at once. */
  ghost predicate NoRepeat(m0: Memory, ds: seq<(int, Decision, nat)>) {
    && (forall i, j :: 0 <= i < j < |ds| ==> ds[i].0 < ds[j].0)
    && (|ds| > 0 ==> Some(ds[0].0) != m0.recorded)
  }

  ghost predicate Valid(xs: seq<Turn>) {
    MonotoneClock(xs) && forall i :: 0 <= i < |xs| ==> KeyFits(xs[i])
  }

  lemma TurnKeepsRecord(m0: Memory, m: Memory, ds: seq<(int, Decision, nat)>, x: Turn, n: nat)
    requires Recorded(m0, m, ds)
    ensures Recorded(m0, After(m, x), ds + Entry(Decide(m, x), n))
  {
    var d := Decide(m, x);
    if d.Some? {
      var ds' := ds + [(d.value.0, d.value.1, n)];
      assert ds'[|ds|].0 == d.value.0 && forall i :: 0 <= i < |ds| ==> ds'[i] == ds[i];
    } else {
      assert ds + [] == ds;
    }
  }

  lemma TurnKeepsLog(m: Memory, ds: seq<(int, Decision, nat)>, xs: seq<Turn>)
    requires |xs| > 0 && Valid(xs) && Logged(xs[..|xs| - 1], ds)
    ensures Logged(xs, ds + Entry(Decide(m, xs[|xs| - 1]), |xs| - 1))
  {
    var n := |xs| - 1;
    assert forall i :: 0 <= i < |ds| ==> xs[..n][ds[i].2] == xs[ds[i].2];
    var d := Decide(m, xs[n]);
    if d.Some? {
      assert KeyFits(xs[n]);
      forall i | 0 <= i < |ds|
        ensures ds[i].0 <= d.value.0
      {
        assert xs[ds[i].2].now <= xs[n].now;
      }
    } else {
      assert ds + [] == ds;
    }
  }

  /** Over any run on a clock that never runs back, the state file follows the log of decisions. */
  lemma {:induction false} DecisionsAreLogged(m0: Memory, xs: seq<Turn>)
    requires Valid(xs)
    ensures Recorded(m0, MemoryAfter(m0, xs), Decisions(m0, xs)) && Logged(xs, Decisions(m0, xs))
  {
    if |xs| > 0 {
      var n := |xs| - 1;
      DecisionsAreLogged(m0, xs[..n]);
      TurnKeepsRecord(m0, MemoryAfter(m0, xs[..n]), Decisions(m0, xs[..n]), xs[n], n);
      TurnKeepsLog(MemoryAfter(m0, xs[..n]), Decisions(m0, xs[..n]), xs);
    }
  }

  /** A check that decides, unable to read it, the very minute the file records. */
  predicate Forgets(m: Memory, x: Turn) {
    x.Check? && !x.readable && x.writable && x.key.Some? && x.key == m.recorded && x.key != m.lastRuntimeKey
  }

  predicate NothingForgotten(m0: Memory, xs: seq<Turn>) {
    forall k :: 0 <= k < |xs| ==> !Forgets(MemoryAfter(m0, xs[..k]), xs[k])
  }

  lemma NothingForgottenGrows(m0: Memory, xs: seq<Turn>)
    requires |xs| > 0
    ensures var n := |xs| - 1;
      NothingForgotten(m0, xs) <==> NothingForgotten(m0, xs[..n]) && !Forgets(MemoryAfter(m0, xs[..n]), xs[n])
  {
    var n := |xs| - 1;
    assert forall k :: 0 <= k < n ==> xs[..n][..k] == xs[..k] && xs[..n][k] == xs[k];
    if NothingForgotten(m0, xs[..n]) && !Forgets(MemoryAfter(m0, xs[..n]), xs[n]) {
      forall k | 0 <= k < |xs|
        ensures !Forgets(MemoryAfter(m0, xs[..k]), xs[k])
      {
        if k < n { assert !Forgets(MemoryAfter(m0, xs[..n][..k]), xs[..n][k]); }
      }
    }
    if NothingForgotten(m0, xs) {
      forall k | 0 <= k < n
        ensures !Forgets(MemoryAfter(m0, xs[..n][..k]), xs[..n][k])
      {
        assert !Forgets(MemoryAfter(m0, xs[..k]), xs[k]);
      }
    }
  }

  lemma RepeatIsLast(m0: Memory, ds: seq<(int, Decision, nat)>, e: (int, Decision, nat))
    requires NoRepeat(m0, ds) && forall i :: 0 <= i < |ds| ==> ds[i].0 <= e.0
    ensures NoRepeat(m0, ds + [e]) <==> Some(e.0) != if |ds| > 0 then Some(ds[|ds| - 1].0) else m0.recorded
  {
    var ds' := ds + [e];
    assert ds'[|ds|] == e && forall i :: 0 <= i < |ds| ==> ds'[i] == ds[i];
    if |ds| > 0 {
      assert forall i :: 0 <= i < |ds| - 1 ==> ds[i].0 < ds[|ds| - 1].0;
    }
  }

  /** One more turn repeats a minute exactly when it forgets. */
  lemma TurnRepeats(m0: Memory, m: Memory, ds: seq<(int, Decision, nat)>, xs: seq<Turn>)
    requires |xs| > 0 && Valid(xs) && Recorded(m0, m, ds) && Logged(xs[..|xs| - 1], ds) && NoRepeat(m0, ds)
    ensures NoRepeat(m0, ds + Entry(Decide(m, xs[|xs| - 1]), |xs| - 1)) <==> !Forgets(m, xs[|xs| - 1])
  {
    var n := |xs| - 1;
    var d := Decide(m, xs[n]);
    if d.Some? {
      var e := (d.value.0, d.value.1, n);
      forall i | 0 <= i < |ds|
        ensures ds[i].0 <= e.0
      {
        assert xs[..n][ds[i].2] == xs[ds[i].2] && KeyFits(xs[n]);
      }
      RepeatIsLast(m0, ds, e);
      assert Forgets(m, xs[n]) <==> Some(e.0) == m.recorded;
    } else {
      assert ds + [] == ds;
    }
  }

  lemma NoRepeatPrefix(m0: Memory, ds: seq<(int, Decision, nat)>, more: seq<(int, Decision, nat)>)
    requires NoRepeat(m0, ds + more)
    ensures NoRepeat(m0, ds)
  {
    var all := ds + more;
    assert forall i :: 0 <= i < |ds| ==> ds[i] == all[i];
  }

  lemma RepeatGrows(m0: Memory, m: Memory, ds: seq<(int, Decision, nat)>, xs: seq<Turn>)
    requires |xs| > 0 && Valid(xs) && Recorded(m0, m, ds) && Logged(xs[..|xs| - 1], ds)
    ensures NoRepeat(m0, ds + Entry(Decide(m, xs[|xs| - 1]), |xs| - 1)) <==> NoRepeat(m0, ds) && !Forgets(m, xs[|xs| - 1])
  {
    if NoRepeat(m0, ds) {
      TurnRepeats(m0, m, ds, xs);
    } else if NoRepeat(m0, ds + Entry(Decide(m, xs[|xs| - 1]), |xs| - 1)) {
      NoRepeatPrefix(m0, ds, Entry(Decide(m, xs[|xs| - 1]), |xs| - 1));
    }
  }

  lemma ValidPrefix(xs: seq<Turn>, n: nat)
    requires Valid(xs) && n <= |xs|
    ensures Valid(xs[..n])
  {
  }

  lemma DecisionsRepeat(m0: Memory, xs: seq<Turn>)
    requires |xs| > 0 && Valid(xs)
    ensures var n := |xs| - 1;
      NoRepeat(m0, Decisions(m0, xs)) <==>
        NoRepeat(m0, Decisions(m0, xs[..n])) && !Forgets(MemoryAfter(m0, xs[..n]), xs[n])
  {
    var n := |xs| - 1;
    ValidPrefix(xs, n);
    DecisionsAreLogged(m0, xs[..n]);
    RepeatGrows(m0, MemoryAfter(m0, xs[..n]), Decisions(m0, xs[..n]), xs);
  }

  /**
   Over any run of checks, process restarts, unreadable and unwritable state files, on a clock that
   never runs back: each scheduled minute is decided, and hence rebooted for, at most once, if and
   only if no check met the minute on record without being able to read the record.
   */
  lemma {:induction false} AtMostOneDecisionPerMinute(m0: Memory, xs: seq<Turn>)
    requires Valid(xs)
    ensures NoRepeat(m0, Decisions(m0, xs)) <==> NothingForgotten(m0, xs)
  {
    if |xs| > 0 {
      var n := |xs| - 1;
      ValidPrefix(xs, n);
      AtMostOneDecisionPerMinute(m0, xs[..n]);
      DecisionsRepeat(m0, xs);
      NothingForgottenGrows(m0, xs);
    }
  }

  /** A file that can be read whenever it matters forgets nothing. */
  lemma ReadableFileForgetsNothing(m0: Memory, xs: seq<Turn>)
    requires Valid(xs) && forall k :: 0 <= k < |xs| && xs[k].Check? ==> xs[k].readable
    ensures NoRepeat(m0, Decisions(m0, xs))
  {
    AtMostOneDecisionPerMinute(m0, xs);
  }

  lemma {:induction false} EntryIsDecision(m0: Memory, xs: seq<Turn>, i: nat)
    requires i < |Decisions(m0, xs)|
    ensures var e := Decisions(m0, xs)[i];
      e.2 < |xs| && Decide(MemoryAfter(m0, xs[..e.2]), xs[e.2]) == Some((e.0, e.1))
  {
    var n := |xs| - 1;
    var earlier := Decisions(m0, xs[..n]);
    if i < |earlier| {
      EntryIsDecision(m0, xs[..n], i);
      assert xs[..n][..earlier[i].2] == xs[..earlier[i].2];
    }
  }

  /** While the process lives and the minute lasts, a reboot it decided stays in its memory. */
  lemma {:induction false} RebootIsRemembered(m0: Memory, xs: seq<Turn>, k: nat, n: nat)
    requires k < n <= |xs| && Decide(MemoryAfter(m0, xs[..k]), xs[k]).Some?
    requires Decide(MemoryAfter(m0, xs[..k]), xs[k]).value.1 == Reboot && Valid(xs)
    requires forall l :: k < l < n ==> xs[l].Check? && MinuteOf(xs[l].now) == MinuteOf(xs[k].now)
    ensures MemoryAfter(m0, xs[..n]).lastRuntimeKey == Some(MinuteOf(xs[k].now))
  {
    var g, x := xs[..n - 1], xs[n - 1];
    assert xs[..n][..n - 1] == g && xs[..n][n - 1] == x && KeyFits(x);
    if k < n - 1 {
      RebootIsRemembered(m0, xs, k, n - 1);
    }
  }

  /**
   Whatever can be read or written: a minute is decided again only after a busy skip, or once the
   process was started again in between.
   */
  lemma RepeatNeedsSkipOrRestart(m0: Memory, xs: seq<Turn>, i: nat, j: nat)
    requires Valid(xs) && i < j < |Decisions(m0, xs)|
    ensures var a, b := Decisions(m0, xs)[i], Decisions(m0, xs)[j];
      a.0 == b.0 ==> a.1 == SkippedBusy || exists l :: a.2 < l < b.2 < |xs| && xs[l].ProcessRestart?
  {
    var a, b := Decisions(m0, xs)[i], Decisions(m0, xs)[j];
    EntryIsDecision(m0, xs, i);
    EntryIsDecision(m0, xs, j);
    DecisionsAreLogged(m0, xs);
    assert KeyFits(xs[a.2]) && KeyFits(xs[b.2]);
    if a.0 == b.0 && a.1 == Reboot && forall l :: a.2 < l < b.2 ==> xs[l].Check? {
      RebootIsRemembered(m0, xs, a.2, b.2);
      assert false;
    }
  }

  /** Busy at the first check, the file unreadable at the next: the minute that was to be skipped gets its reboot. */
  lemma UnreadableFileReboots(minute: int) returns (xs: seq<Turn>)
    ensures Valid(xs) && !NothingForgotten(Memory(None, None), xs)
    ensures Decisions(Memory(None, None), xs) == [(minute, SkippedBusy, 0), (minute, Reboot, 1)]
  {
    var key, m0 := Some(minute), Memory(None, None);
    var first, second := Check(minute * MINUTE, key, true, true, true), Check(minute * MINUTE, key, false, false, true);
    xs := [first, second];
    assert xs[..1] == [first] && [first][..0] == [];
    assert Decisions(m0, xs[..1]) == [(minute, SkippedBusy, 0)];
    assert MemoryAfter(m0, xs[..1]) == Memory(None, key);
    DecisionsAreLogged(m0, xs);
    assert Forgets(MemoryAfter(m0, xs[..1]), xs[1]);
  }

  /**
   The first check inside a scheduled minute decides it: a reboot, or a skip when OTA was busy
   then. Only a memory from before the run can have settled the minute already.
   */
  lemma FirstCheckDecides(m0: Memory, xs: seq<Turn>, k: nat)
    requires Valid(xs) && k < |xs| && xs[k].Check? && xs[k].key.Some? && xs[k].writable
    requires m0.lastRuntimeKey != xs[k].key && m0.recorded != xs[k].key
    requires forall i :: 0 <= i < k && xs[i].Check? ==> MinuteOf(xs[i].now) != MinuteOf(xs[k].now)
    ensures Decide(MemoryAfter(m0, xs[..k]), xs[k]) ==
      Some((MinuteOf(xs[k].now), if xs[k].busy then SkippedBusy else Reboot))
  {
    DecisionsAreLogged(m0, xs[..k]);
    var ds := Decisions(m0, xs[..k]);
    forall i | 0 <= i < |ds|
      ensures ds[i].0 != MinuteOf(xs[k].now)
    {
      assert xs[..k][ds[i].2] == xs[ds[i].2];
    }
  }

  predicate NextCheck(xs: seq<Turn>, i: int, j: int)
    requires 0 <= i < j < |xs|
  {
    xs[i].Check? && xs[j].Check? && forall l :: i < l < j ==> xs[l].ProcessRestart?
  }

  /** Successive checks, process restarts aside, are less than a minute apart. */
  predicate Frequent(xs: seq<Turn>) {
    forall i, j :: 0 <= i < j < |xs| && NextCheck(xs, i, j) ==> xs[j].now < xs[i].now + MINUTE
  }

  /** The first check at or past instant `at`. */
  lemma FirstCheckFrom(xs: seq<Turn>, at: int, b: nat) returns (k: nat)
    requires b < |xs| && xs[b].Check? && at <= xs[b].now
    ensures k <= b && xs[k].Check? && at <= xs[k].now
    ensures forall i :: 0 <= i < k && xs[i].Check? ==> xs[i].now < at
  {
    k := 0;
    while !(xs[k].Check? && at <= xs[k].now)
      invariant 0 <= k <= b
      invariant forall i :: 0 <= i < k && xs[i].Check? ==> xs[i].now < at
      decreases b - k
    {
      k := k + 1;
    }
  }

  lemma {:induction false} PreviousCheck(xs: seq<Turn>, a: nat, k: nat) returns (p: nat)
    requires a < k < |xs| && xs[a].Check? && xs[k].Check?
    ensures a <= p < k && NextCheck(xs, p, k)
  {
    p := k - 1;
    while xs[p].ProcessRestart?
      invariant a <= p < k
      invariant forall l :: p < l < k ==> xs[l].ProcessRestart?
      decreases p
    {
      p := p - 1;
    }
  }

  /** Frequent checks reaching from before the end of a minute past its beginning hit it; `k` is the first hit. */
  lemma SomeCheckHits(xs: seq<Turn>, minute: int, a: nat, b: nat) returns (k: nat)
    requires MonotoneClock(xs) && Frequent(xs)
    requires a < |xs| && xs[a].Check? && xs[a].now < (minute + 1) * MINUTE
    requires b < |xs| && xs[b].Check? && minute * MINUTE <= xs[b].now
    ensures k < |xs| && xs[k].Check? && MinuteOf(xs[k].now) == minute
    ensures forall i :: 0 <= i < k && xs[i].Check? ==> MinuteOf(xs[i].now) != minute
  {
    k := FirstCheckFrom(xs, minute * MINUTE, b);
    if xs[k].now >= (minute + 1) * MINUTE {
      assert a < k;
      var p := PreviousCheck(xs, a, k);
      assert false;
    }
  }

  lemma {:induction false} DecisionIsLogged(m0: Memory, xs: seq<Turn>, k: nat)
    requires k < |xs| && Decide(MemoryAfter(m0, xs[..k]), xs[k]).Some?
    ensures var d := Decide(MemoryAfter(m0, xs[..k]), xs[k]).value;
      exists i :: 0 <= i < |Decisions(m0, xs)| && Decisions(m0, xs)[i] == (d.0, d.1, k)
    decreases |xs|
  {
    var n := |xs| - 1;
    var d := Decide(MemoryAfter(m0, xs[..k]), xs[k]).value;
    var ds, earlier := Decisions(m0, xs), Decisions(m0, xs[..n]);
    if k == n {
      assert ds[|ds| - 1] == (d.0, d.1, k);
    } else {
      assert xs[..n][..k] == xs[..k];
      DecisionIsLogged(m0, xs[..n], k);
      var i :| 0 <= i < |earlier| && earlier[i] == (d.0, d.1, k);
      assert ds[i] == earlier[i];
    }
  }

  lemma DecidedOnce(m0: Memory, xs: seq<Turn>, minute: int, a: nat, b: nat) returns (i: nat)
    requires Valid(xs) && Frequent(xs)
    requires forall k :: 0 <= k < |xs| && xs[k].Check? && MinuteOf(xs[k].now) == minute ==>
      xs[k].writable && xs[k].key == Some(minute)
    requires m0.lastRuntimeKey != Some(minute) && m0.recorded != Some(minute)
    requires a < |xs| && xs[a].Check? && xs[a].now < (minute + 1) * MINUTE
    requires b < |xs| && xs[b].Check? && minute * MINUTE <= xs[b].now
    ensures i < |Decisions(m0, xs)| && FirstHitDecides(xs, Decisions(m0, xs), minute, i)
    ensures NothingForgotten(m0, xs) ==> SoleDecision(Decisions(m0, xs), minute, i)
  {
    var k := SomeCheckHits(xs, minute, a, b);
    FirstCheckDecides(m0, xs, k);
    DecisionIsLogged(m0, xs, k);
    var ds := Decisions(m0, xs);
    i :| 0 <= i < |ds| && ds[i] == (minute, if xs[k].busy then SkippedBusy else Reboot, k);
    AtMostOneDecisionPerMinute(m0, xs);
  }

  /** Entry `i` of the log is about the minute, and was taken by the first check inside it. */
  ghost predicate FirstHitDecides(xs: seq<Turn>, ds: seq<(int, Decision, nat)>, minute: int, i: nat)
    requires i < |ds|
  {
    && ds[i].0 == minute && ds[i].2 < |xs| && xs[ds[i].2].Check?
    && ds[i].1 == (if xs[ds[i].2].busy then SkippedBusy else Reboot)
    && (forall k :: 0 <= k < ds[i].2 && xs[k].Check? ==> MinuteOf(xs[k].now) != minute)
  }

  ghost predicate SoleDecision(ds: seq<(int, Decision, nat)>, minute: int, i: nat) {
    forall j :: 0 <= j < |ds| && ds[j].0 == minute ==> j == i
  }

  lemma KeyDependsOnMinute(s: int, t: int, sched: Schedule)
    requires MinuteOf(s) == MinuteOf(t)
    ensures KeyOf(sched, s) == KeyOf(sched, t)
  {
  }

  /** Every check goes by this schedule and can write; the minute is scheduled, and not settled before the run. */
  ghost predicate GoesBy(m0: Memory, xs: seq<Turn>, sched: Schedule, minute: int) {
    && (forall k :: 0 <= k < |xs| && xs[k].Check? ==> xs[k].writable && xs[k].key == KeyOf(sched, xs[k].now))
    && KeyOf(sched, minute * MINUTE).Some?
    && m0.lastRuntimeKey != Some(minute) && m0.recorded != Some(minute)
  }

  /**
   With checks less than 60 seconds apart and a writable state file, a minute scheduled under the
   configured (normalised) schedule is decided by the first check inside it, and by no other
   unless the file was forgotten.
   */
  lemma EveryScheduledMinuteDecidedOnce(m0: Memory, xs: seq<Turn>, sched: Schedule, minute: int, a: nat, b: nat)
    returns (i: nat)
    requires Valid(xs) && Frequent(xs)
    requires a < |xs| && xs[a].Check? && xs[a].now < (minute + 1) * MINUTE
    requires b < |xs| && xs[b].Check? && minute * MINUTE <= xs[b].now
    ensures GoesBy(m0, xs, sched, minute) ==>
      && i < |Decisions(m0, xs)| && FirstHitDecides(xs, Decisions(m0, xs), minute, i)
      && (NothingForgotten(m0, xs) ==> SoleDecision(Decisions(m0, xs), minute, i))
  {
    i := 0;
    if GoesBy(m0, xs, sched, minute) {
      forall k | 0 <= k < |xs| && xs[k].Check? && MinuteOf(xs[k].now) == minute
        ensures xs[k].key == Some(minute)
      {
        KeyDependsOnMinute(xs[k].now, minute * MINUTE, sched);
        assert KeyFits(xs[k]);
      }
      i := DecidedOnce(m0, xs, minute, a, b);
    }
  }
}
