/** What the server is told: the sequence of transitions the runner emits between two restarts. */
module MotionLog {
  import opened Prelude
  import opened MotionModel

  /** `b` ends the very event that `a` started, after at least the minimum duration. */
  predicate EndOf(cfg: MotionConfig, a: Transition, b: Transition) {
    && a.phase == Start && b.phase == End
    && b.event.serial == a.event.serial
    && b.event.startedAt == a.event.startedAt
    && a.event.peakScore <= b.event.peakScore
    && b.event.endedAt.Some?
    && b.event.endedAt.value - b.event.startedAt >= cfg.minDuration
  }

  predicate EndsHaveStarts(cfg: MotionConfig, log: seq<Transition>) {
    forall i :: 0 <= i < |log| && log[i].phase == End ==> i > 0 && EndOf(cfg, log[i - 1], log[i])
  }

  predicate Alternates(cfg: MotionConfig, log: seq<Transition>) {
    && (forall i :: 0 <= i < |log| ==> (log[i].phase == Start <==> i % 2 == 0))
    && (forall i :: 0 < i < |log| && i % 2 == 1 ==> EndOf(cfg, log[i - 1], log[i]))
  }

  /** The running event has reported its start last, if it has reported at all. */
  predicate Reported(st: State, log: seq<Transition>) {
    && st.pending.None?
    && (st.startEmitted ==>
          && st.current.Some? && |log| > 0 && log[|log| - 1].phase == Start
          && log[|log| - 1].event.serial == st.current.value.serial
          && log[|log| - 1].event.startedAt == st.current.value.startedAt
          && log[|log| - 1].event.peakScore <= st.current.value.peakScore)
  }

  lemma StepKeepsStarts(cfg: MotionConfig, st: State, log: seq<Transition>, x: Sample)
    requires EndsHaveStarts(cfg, log) && Reported(st, log)
    ensures var p := Processed(cfg, st, x); var log' := log + (if p.pending.Some? then [p.pending.value] else []);
      EndsHaveStarts(cfg, log') && Reported(Poll(p), log')
  {
    var p := Processed(cfg, st, x);
    if p.pending.Some? {
      assert p.pending.value.phase == End ==> |log| > 0 && EndOf(cfg, log[|log| - 1], p.pending.value);
    }
  }

  /** Whatever the clock does, an end is always sent right after the start of the same event. */
  lemma {:induction false} EveryEndHasItsStart(cfg: MotionConfig, h: History)
    ensures EndsHaveStarts(cfg, Log(cfg, h))
    ensures Reported(Run(cfg, h), Log(cfg, h))
  {
    if |h| > 0 {
      EveryEndHasItsStart(cfg, h[..|h| - 1]);
      StepKeepsStarts(cfg, Run(cfg, h[..|h| - 1]), Log(cfg, h[..|h| - 1]), h[|h| - 1]);
    }
  }

  /** The clock has fallen so far back at `x` that the reported event closes without an end. */
  predicate Swallows(cfg: MotionConfig, st: State, x: Sample) {
    && st.startEmitted && st.current.Some?
    && x.score <= cfg.endScore && st.below + 1 >= cfg.minEndFrames
    && x.now - st.current.value.startedAt < cfg.minDuration
  }

  /**
   One sample, polled at once: a silent step, the start of an unreported event, the end of the
   reported one, or a swallowed end.
   */
  lemma StepReports(cfg: MotionConfig, st: State, x: Sample)
    requires st.pending.None? && (st.startEmitted ==> st.current.Some?)
    ensures var p := Processed(cfg, st, x);
      && (Swallows(cfg, st, x) ==> p.pending.None? && st.startEmitted && !p.startEmitted)
      && (!Swallows(cfg, st, x) ==> (p.pending.None? <==> p.startEmitted == st.startEmitted))
      && (p.pending.Some? && !st.startEmitted ==> p.pending.value.phase == Start)
      && (p.pending.Some? && st.startEmitted ==>
            p.pending.value.phase == End
            && p.pending.value.event == RaisePeak(st, x.score, x.pixels).current.value.(endedAt := Some(x.now))
            && x.now - st.current.value.startedAt >= cfg.minDuration)
  {
  }

  lemma AlternationGrows(cfg: MotionConfig, log: seq<Transition>, t: Transition)
    requires Alternates(cfg, log)
    requires if |log| % 2 == 0 then t.phase == Start else EndOf(cfg, log[|log| - 1], t)
    ensures Alternates(cfg, log + [t])
  {
  }

  /** Starts and ends alternate, and the start of the running event is the one without an end. */
  predicate InStep(cfg: MotionConfig, st: State, log: seq<Transition>) {
    Alternates(cfg, log) && (|log| % 2 == 1 <==> st.startEmitted)
  }

  /** From a log that is in step, exactly a swallowed end brings it out of step. */
  lemma StepAlternates(cfg: MotionConfig, st: State, log: seq<Transition>, x: Sample)
    requires Reported(st, log) && InStep(cfg, st, log)
    ensures var p := Processed(cfg, st, x); var log' := log + (if p.pending.Some? then [p.pending.value] else []);
      InStep(cfg, Poll(p), log') <==> !Swallows(cfg, st, x)
  {
    var p := Processed(cfg, st, x);
    StepReports(cfg, st, x);
    if p.pending.Some? {
      AlternationGrows(cfg, log, p.pending.value);
    } else {
      assert log + [] == log;
    }
  }

  /** No sample of the history swallowed an end. */
  predicate NothingSwallowed(cfg: MotionConfig, h: History) {
    forall k :: 0 <= k < |h| ==> !Swallows(cfg, Run(cfg, h[..k]), h[k])
  }

  ghost predicate AtEveryMoment(p: History -> bool, h: History) {
    forall k :: 0 <= k <= |h| ==> p(h[..k])
  }

  function InStepAfter(cfg: MotionConfig): History -> bool {
    h => InStep(cfg, Run(cfg, h), Log(cfg, h))
  }

  /** At every moment of the history, starts and ends alternate. */
  ghost predicate AlwaysInStep(cfg: MotionConfig, h: History) {
    AtEveryMoment(InStepAfter(cfg), h)
  }

  lemma PrefixesOneMore(p: History -> bool, h: History)
    requires |h| > 0
    ensures AtEveryMoment(p, h) <==> AtEveryMoment(p, h[..|h| - 1]) && p(h)
  {
    var n := |h| - 1;
    assert h[..|h|] == h;
    assert forall k :: 0 <= k <= n ==> h[..n][..k] == h[..k];
  }

  lemma SwallowedOneMore(cfg: MotionConfig, h: History)
    requires |h| > 0
    ensures var g := h[..|h| - 1];
      NothingSwallowed(cfg, h) <==> NothingSwallowed(cfg, g) && !Swallows(cfg, Run(cfg, g), h[|h| - 1])
  {
    var n := |h| - 1;
    var g := h[..n];
    if NothingSwallowed(cfg, h) {
      forall k | 0 <= k < n
        ensures !Swallows(cfg, Run(cfg, g[..k]), g[k])
      {
        assert g[..k] == h[..k];
      }
    }
    if NothingSwallowed(cfg, g) && !Swallows(cfg, Run(cfg, g), h[n]) {
      forall k | 0 <= k < |h|
        ensures !Swallows(cfg, Run(cfg, h[..k]), h[k])
      {
        if k < n { assert g[..k] == h[..k] && g[k] == h[k]; }
      }
    }
  }

  /**
   Whatever the clock does: starts and ends alternate all along the history, an odd log meaning an
   open reported event, if and only if no sample swallowed an end.
   */
  lemma {:induction false} AlternateIffNothingSwallowed(cfg: MotionConfig, h: History)
    ensures AlwaysInStep(cfg, h) <==> NothingSwallowed(cfg, h)
  {
    if |h| == 0 {
      assert h[..0] == [];
    } else {
      var g, x := h[..|h| - 1], h[|h| - 1];
      AlternateIffNothingSwallowed(cfg, g);
      PrefixesOneMore(InStepAfter(cfg), h);
      SwallowedOneMore(cfg, h);
      EveryEndHasItsStart(cfg, g);
      if AlwaysInStep(cfg, g) {
        assert g[..|g|] == g && InStepAfter(cfg)(g[..|g|]);
        StepAlternates(cfg, Run(cfg, g), Log(cfg, g), x);
      }
    }
  }

  /** A reported event has lasted the minimum duration, on a clock that never runs back. */
  lemma {:induction false} ReportedIsRipe(cfg: MotionConfig, h: History, now: real)
    requires MonotoneClock(h) && (|h| > 0 ==> h[|h| - 1].now <= now)
    ensures var st := Run(cfg, h);
      st.startEmitted ==> st.current.Some? && now - st.current.value.startedAt >= cfg.minDuration
  {
    if |h| > 0 {
      ReportedIsRipe(cfg, h[..|h| - 1], h[|h| - 1].now);
      EveryEndHasItsStart(cfg, h[..|h| - 1]);
    }
  }

  /** On a clock that never runs back, starts and ends strictly alternate; an odd log means an open, reported event. */
  lemma StartsAndEndsAlternate(cfg: MotionConfig, h: History)
    requires MonotoneClock(h)
    ensures Alternates(cfg, Log(cfg, h))
    ensures |Log(cfg, h)| % 2 == 1 <==> Run(cfg, h).startEmitted
  {
    forall k | 0 <= k < |h|
      ensures !Swallows(cfg, Run(cfg, h[..k]), h[k])
    {
      ReportedIsRipe(cfg, h[..k], h[k].now);
    }
    AlternateIffNothingSwallowed(cfg, h);
    assert h[..|h|] == h && InStepAfter(cfg)(h[..|h|]);
  }

  predicate FreshStarts(st: State, log: seq<Transition>) {
    && (st.current.Some? ==> st.current.value.serial < st.issued)
    && (forall i :: 0 <= i < |log| ==> log[i].event.serial < st.issued)
    && (st.current.Some? && !st.startEmitted ==>
          forall i :: 0 <= i < |log| ==> log[i].event.serial != st.current.value.serial)
    && (forall i, j :: 0 <= i < j < |log| && log[i].phase == log[j].phase == Start ==>
          log[i].event.serial != log[j].event.serial)
  }

  lemma StepKeepsFreshStarts(cfg: MotionConfig, st: State, log: seq<Transition>, x: Sample)
    requires st.pending.None? && FreshStarts(st, log)
    ensures var p := Processed(cfg, st, x);
      FreshStarts(Poll(p), log + (if p.pending.Some? then [p.pending.value] else []))
  {
  }

  /** No two starts announce the same event, whatever the clock does. */
  lemma {:induction false} StartsAreDistinct(cfg: MotionConfig, h: History)
    ensures FreshStarts(Run(cfg, h), Log(cfg, h))
  {
    if |h| > 0 {
      StartsAreDistinct(cfg, h[..|h| - 1]);
      EveryEndHasItsStart(cfg, h[..|h| - 1]);
      StepKeepsFreshStarts(cfg, Run(cfg, h[..|h| - 1]), Log(cfg, h[..|h| - 1]), h[|h| - 1]);
    }
  }

  /** A clock that steps back can swallow an end: two starts in a row. */
  lemma ClockStepSwallowsEnd() returns (cfg: MotionConfig, h: History)
    ensures cfg.Valid() && !MonotoneClock(h)
    ensures |Log(cfg, h)| == 2 && Log(cfg, h)[0].phase == Start && Log(cfg, h)[1].phase == Start
  {
    cfg := MotionConfig(8, 0.006, 0.002, 1, 1, 0.8);
    var open, report := Sample(1.0, 1, 0.0), Sample(1.0, 1, 1.0);
    var quiet := Sample(0.0, 0, 0.0);
    var h1 := [open];
    var h2 := h1 + [report];
    var h3 := h2 + [quiet];
    var h4 := h3 + [open];
    h := h4 + [report];
    assert h1[..0] == [];
    assert h2[..1] == h1;
    assert h3[..2] == h2;
    assert h4[..3] == h3;
    assert h[..4] == h4;
    assert Run(cfg, h1).current.Some? && Log(cfg, h1) == [];
    assert Run(cfg, h2).startEmitted && |Log(cfg, h2)| == 1;
    assert Run(cfg, h3).current.None? && |Log(cfg, h3)| == 1;
    assert Run(cfg, h4).current.Some? && |Log(cfg, h4)| == 1;
    assert h[1].now > h[2].now;
  }

  /** Frames captured on a non-decreasing clock give samples on a non-decreasing clock. */
  lemma {:induction false} SamplesKeepTheClock(cfg: MotionConfig, inputs: seq<Input>, size: nat)
    requires size > 0 && AllOfSize(inputs, size) && NoRestart(inputs) && MonotoneInputs(inputs)
    ensures var h := SamplesOf(cfg, inputs, size);
      MonotoneClock(h) && forall i :: 0 <= i < |h| ==> |inputs| > 0 && h[i].now <= inputs[|inputs| - 1].now
  {
    var n := |inputs| - 1;
    if n >= 2 {
      SamplesKeepTheClock(cfg, inputs[..n], size);
      assert inputs[n - 1].now <= inputs[n].now;
    }
  }

  /** The transitions a runner posts for the frames of one start alternate. */
  lemma PostsAlternate(cfg: MotionConfig, inputs: seq<Input>, size: nat)
    requires size > 0 && AllOfSize(inputs, size) && NoRestart(inputs) && MonotoneInputs(inputs)
    ensures Alternates(cfg, Log(cfg, SamplesOf(cfg, inputs, size)))
  {
    SamplesKeepTheClock(cfg, inputs, size);
    StartsAndEndsAlternate(cfg, SamplesOf(cfg, inputs, size));
  }
}
