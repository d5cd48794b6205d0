/**
 What the counters mean. A second definition of the detector's phase looks only at
 the scores themselves, never at a counter, and the detector is proved to agree
 with it after every history.
 */
module MotionHistory {
  import opened Prelude
  import opened MotionModel

  /** `since` is the number of samples seen when the phase was entered. */
  datatype Phases = Idle(since: nat) | Active(since: nat)

  ghost predicate LastAll(h: History, since: nat, k: int, p: Sample -> bool) {
    0 <= k <= |h| - since && forall i :: |h| - k <= i < |h| ==> p(h[i])
  }

  function AtLeastStart(cfg: MotionConfig): Sample -> bool {
    (x: Sample) => x.score >= cfg.startScore
  }

  function AtMostEnd(cfg: MotionConfig): Sample -> bool {
    (x: Sample) => x.score <= cfg.endScore
  }

  /** The phase read off the scores: an opening needs a full run since the last close, and so does a closing. */
  ghost function PhaseOf(cfg: MotionConfig, h: History): (r: Phases)
    ensures r.since <= |h| && (r.Active? ==> r.since > 0)
  {
    if |h| == 0 then Idle(0)
    else
      var before := PhaseOf(cfg, h[..|h| - 1]);
      match before
      case Idle(s) => if LastAll(h, s, cfg.minStartFrames, AtLeastStart(cfg)) then Active(|h|) else before
      case Active(s) => if LastAll(h, s, cfg.minEndFrames, AtMostEnd(cfg)) then Idle(|h|) else before
  }

  /** The score and pixel count of the first largest sample from index `from` on. */
  ghost predicate IsPeak(h: History, from: nat, score: real, pixels: nat) {
    exists j :: from <= j < |h| && h[j].score == score && h[j].pixels == pixels
      && (forall i :: from <= i < j ==> h[i].score < score)
      && (forall i :: j <= i < |h| ==> h[i].score <= score)
  }

  /** Length of the run of samples satisfying `p` at the end of `h`, not reaching back before `since`. */
  function Trailing(p: Sample -> bool, h: History, since: nat): (n: nat) {
    if |h| > since && p(h[|h| - 1]) then 1 + Trailing(p, h[..|h| - 1], since) else 0
  }

  lemma {:induction false} TrailingMeansLastAll(p: Sample -> bool, h: History, since: nat, k: int)
    requires since <= |h| && k >= 0
    ensures Trailing(p, h, since) >= k <==> LastAll(h, since, k, p)
  {
    if k > 0 && |h| > since && p(h[|h| - 1]) {
      var g := h[..|h| - 1];
      TrailingMeansLastAll(p, g, since, k - 1);
      if LastAll(g, since, k - 1, p) {
        assert forall i :: |h| - k <= i < |h| - 1 ==> h[i] == g[i];
      }
      if LastAll(h, since, k, p) {
        assert forall i :: |g| - (k - 1) <= i < |g| ==> g[i] == h[i];
      }
    }
  }

  ghost predicate AgreesIdle(cfg: MotionConfig, h: History, s: nat, st: State) {
    && st.current.None? && !st.startEmitted && st.below == 0
    && st.above == Trailing(AtLeastStart(cfg), h, s) < cfg.minStartFrames
  }

  ghost predicate AgreesActive(cfg: MotionConfig, h: History, s: nat, st: State)
    requires 0 < s <= |h|
  {
    && st.current.Some? && st.above == 0
    && st.below == Trailing(AtMostEnd(cfg), h, s) < cfg.minEndFrames
    && st.current.value.startedAt == h[s - 1].now
    && st.current.value.endedAt.None?
    && st.current.value.framesAbove == cfg.minStartFrames
    && IsPeak(h, s - 1, st.current.value.peakScore, st.current.value.peakPixels)
  }

  ghost predicate Agrees(cfg: MotionConfig, h: History, st: State) {
    match PhaseOf(cfg, h)
    case Idle(s) => AgreesIdle(cfg, h, s, st)
    case Active(s) => AgreesActive(cfg, h, s, st)
  }

  lemma PeakGrows(h: History, from: nat, score: real, pixels: nat, x: Sample)
    requires from < |h| && IsPeak(h, from, score, pixels)
    ensures IsPeak(h + [x], from, if x.score > score then x.score else score,
                   if x.score > score then x.pixels else pixels)
  {
    var g := h + [x];
    var j :| from <= j < |h| && h[j].score == score && h[j].pixels == pixels
      && (forall i :: from <= i < j ==> h[i].score < score)
      && (forall i :: j <= i < |h| ==> h[i].score <= score);
    assert forall i :: from <= i < |h| ==> g[i] == h[i] && g[i].score <= score;
    if x.score > score {
      assert g[|h|] == x;
    } else {
      assert g[j] == h[j];
    }
  }

  /** What one sample does while no event is in progress. */
  predicate OnsetOutcome(cfg: MotionConfig, st: State, x: Sample, after: State) {
    var above := if x.score >= cfg.startScore then st.above + 1 else 0;
    if above >= cfg.minStartFrames then
      && after.above == 0 && after.below == 0 && after.current.Some?
      && after.current.value.startedAt == x.now && after.current.value.endedAt.None?
      && after.current.value.framesAbove == above
      && after.current.value.peakScore == x.score && after.current.value.peakPixels == x.pixels
    else
      after.above == above && after.below == 0 && after.current.None? && !after.startEmitted
  }

  lemma SeekOnsetOutcome(cfg: MotionConfig, st: State, x: Sample)
    requires cfg.Valid() && st.current.None? && st.below == 0 && !st.startEmitted
    ensures OnsetOutcome(cfg, st, x, Poll(SeekOnset(cfg, st, x.score, x.pixels, x.now)))
  {
  }

  lemma TrailingGrows(p: Sample -> bool, h: History, since: nat, x: Sample)
    requires since <= |h|
    ensures Trailing(p, h + [x], since) == if p(x) then 1 + Trailing(p, h, since) else 0
  {
    assert (h + [x])[..|h|] == h;
  }

  /** The next phase, in terms of the run at the end of the history. */
  lemma NextPhase(cfg: MotionConfig, h: History, x: Sample)
    requires cfg.Valid()
    ensures var g, r := h + [x], PhaseOf(cfg, h);
      PhaseOf(cfg, g) == match r
        case Idle(s) => if Trailing(AtLeastStart(cfg), g, s) >= cfg.minStartFrames then Active(|g|) else r
        case Active(s) => if Trailing(AtMostEnd(cfg), g, s) >= cfg.minEndFrames then Idle(|g|) else r
  {
    var g, r := h + [x], PhaseOf(cfg, h);
    assert g[..|g| - 1] == h;
    if r.Idle? {
      TrailingMeansLastAll(AtLeastStart(cfg), g, r.since, cfg.minStartFrames);
    } else {
      TrailingMeansLastAll(AtMostEnd(cfg), g, r.since, cfg.minEndFrames);
    }
  }

  lemma OpeningPeak(h: History, x: Sample)
    ensures IsPeak(h + [x], |h|, x.score, x.pixels)
  {
    assert (h + [x])[|h|] == x;
  }

  lemma IdleStep(cfg: MotionConfig, h: History, s: nat, st: State, x: Sample, after: State)
    requires cfg.Valid() && PhaseOf(cfg, h) == Idle(s) && AgreesIdle(cfg, h, s, st)
    requires OnsetOutcome(cfg, st, x, after)
    ensures Agrees(cfg, h + [x], after)
  {
    NextPhase(cfg, h, x);
    TrailingGrows(AtLeastStart(cfg), h, s, x);
    OpeningPeak(h, x);
  }

  /** What one sample does to an event in progress. */
  predicate ExitOutcome(cfg: MotionConfig, st: State, x: Sample, after: State)
    requires st.current.Some?
  {
    var ev := st.current.value;
    var below := if x.score <= cfg.endScore then st.below + 1 else 0;
    if below >= cfg.minEndFrames then
      after.current.None? && after.above == 0 && after.below == 0 && !after.startEmitted
    else
      && after.above == st.above && after.below == below
      && after.current == Some(if x.score > ev.peakScore then ev.(peakScore := x.score, peakPixels := x.pixels) else ev)
  }

  lemma SeekExitOutcome(cfg: MotionConfig, st: State, x: Sample)
    requires cfg.Valid() && st.current.Some? && st.above == 0
    ensures ExitOutcome(cfg, st, x, Poll(SeekExit(cfg, st, x.score, x.pixels, x.now)))
  {
  }

  lemma ActiveContinues(cfg: MotionConfig, h: History, s: nat, st: State, x: Sample, after: State)
    requires cfg.Valid() && 0 < s <= |h| && AgreesActive(cfg, h, s, st)
    requires ExitOutcome(cfg, st, x, after) && after.current.Some?
    requires Trailing(AtMostEnd(cfg), h + [x], s) == (if x.score <= cfg.endScore then st.below + 1 else 0) < cfg.minEndFrames
    ensures AgreesActive(cfg, h + [x], s, after)
  {
    PeakGrows(h, s - 1, st.current.value.peakScore, st.current.value.peakPixels, x);
    assert (h + [x])[s - 1] == h[s - 1];
  }

  lemma ActiveStep(cfg: MotionConfig, h: History, s: nat, st: State, x: Sample, after: State)
    requires cfg.Valid() && PhaseOf(cfg, h) == Active(s) && AgreesActive(cfg, h, s, st)
    requires ExitOutcome(cfg, st, x, after)
    ensures Agrees(cfg, h + [x], after)
  {
    NextPhase(cfg, h, x);
    TrailingGrows(AtMostEnd(cfg), h, s, x);
    if after.current.Some? {
      ActiveContinues(cfg, h, s, st, x, after);
    }
  }

  /** After every history the detector is in an event exactly when the scores say so, and describes it correctly. */
  lemma {:induction false} CountersRefineHistory(cfg: MotionConfig, h: History)
    requires cfg.Valid()
    ensures Agrees(cfg, h, Run(cfg, h))
  {
    if |h| == 0 {
    } else {
      var g, x := h[..|h| - 1], h[|h| - 1];
      CountersRefineHistory(cfg, g);
      assert g + [x] == h;
      match PhaseOf(cfg, g)
      case Idle(s) =>
        SeekOnsetOutcome(cfg, Run(cfg, g), x);
        IdleStep(cfg, g, s, Run(cfg, g), x, Run(cfg, h));
      case Active(s) =>
        SeekExitOutcome(cfg, Run(cfg, g), x);
        ActiveStep(cfg, g, s, Run(cfg, g), x, Run(cfg, h));
    }
  }

  // ----- what is reported -----

  predicate Lasting(cfg: MotionConfig, startedAt: real, x: Sample) {
    x.score > cfg.endScore && x.now - startedAt >= cfg.minDuration
  }

  /** Since the event entered as sample `s - 1`, some sample above the end threshold came late enough to report it. */
  ghost predicate ReportedBy(cfg: MotionConfig, h: History, s: nat)
    requires 0 < s <= |h|
  {
    exists k :: s <= k < |h| && Lasting(cfg, h[s - 1].now, h[k])
  }

  lemma ReportedByGrows(cfg: MotionConfig, h: History, s: nat, x: Sample)
    requires 0 < s <= |h|
    ensures ReportedBy(cfg, h + [x], s) <==> ReportedBy(cfg, h, s) || Lasting(cfg, h[s - 1].now, x)
  {
    var g := h + [x];
    assert g[|h|] == x && forall k :: 0 <= k < |h| ==> g[k] == h[k];
    if ReportedBy(cfg, h, s) {
      var k :| s <= k < |h| && Lasting(cfg, h[s - 1].now, h[k]);
      assert Lasting(cfg, g[s - 1].now, g[k]);
    }
  }

  ghost predicate ReportAgrees(cfg: MotionConfig, h: History, st: State) {
    if PhaseOf(cfg, h).Idle? then !st.startEmitted
    else st.startEmitted <==> ReportedBy(cfg, h, PhaseOf(cfg, h).since)
  }

  /** What one sample of an event in progress makes the detector post, in terms of the counters. */
  lemma ExitPosts(cfg: MotionConfig, st: State, x: Sample)
    requires cfg.Valid() && st.current.Some? && st.pending.None?
    ensures var p, ev := Processed(cfg, st, x), st.current.value;
      var lasting := Lasting(cfg, ev.startedAt, x);
      var raised := if x.score > ev.peakScore then ev.(peakScore := x.score, peakPixels := x.pixels) else ev;
      if x.score <= cfg.endScore && st.below + 1 >= cfg.minEndFrames then
        && !p.startEmitted
        && p.pending == if st.startEmitted && x.now - ev.startedAt >= cfg.minDuration
                        then Some(Transition(Phase.End, raised.(endedAt := Some(x.now)))) else None
      else
        && p.startEmitted == (st.startEmitted || lasting)
        && p.pending == if lasting && !st.startEmitted then Some(Transition(Phase.Start, raised)) else None
  {
  }

  /** An event is reported exactly when its history says so. */
  lemma {:induction false} ReportIsReadOffHistory(cfg: MotionConfig, h: History)
    requires cfg.Valid()
    ensures ReportAgrees(cfg, h, Run(cfg, h)) && Run(cfg, h).pending.None?
  {
    if |h| > 0 {
      var g, x := h[..|h| - 1], h[|h| - 1];
      assert g + [x] == h;
      ReportIsReadOffHistory(cfg, g);
      CountersRefineHistory(cfg, g);
      ReportStep(cfg, g, x);
    }
  }

  lemma ReportStep(cfg: MotionConfig, g: History, x: Sample)
    requires cfg.Valid() && Agrees(cfg, g, Run(cfg, g)) && ReportAgrees(cfg, g, Run(cfg, g)) && Run(cfg, g).pending.None?
    ensures ReportAgrees(cfg, g + [x], Poll(Processed(cfg, Run(cfg, g), x)))
  {
    NextPhase(cfg, g, x);
    match PhaseOf(cfg, g)
    case Idle(s) =>
      TrailingGrows(AtLeastStart(cfg), g, s, x);
      if PhaseOf(cfg, g + [x]).Active? {
        assert !ReportedBy(cfg, g + [x], |g| + 1);
      }
    case Active(s) =>
      TrailingGrows(AtMostEnd(cfg), g, s, x);
      ReportedByGrows(cfg, g, s, x);
      ExitPosts(cfg, Run(cfg, g), x);
  }

  /** `t` announces the event entered as sample `s - 1`: when it began, and the first largest sample since. */
  ghost predicate Announces(h: History, s: nat, t: Transition)
    requires 0 < s <= |h|
  {
    t.event.startedAt == h[s - 1].now && IsPeak(h, s - 1, t.event.peakScore, t.event.peakPixels)
  }

  /** The start is due at the first sample above the end threshold once the event is old enough. */
  ghost predicate StartDue(cfg: MotionConfig, h: History, s: nat, x: Sample)
    requires 0 < s <= |h|
  {
    Lasting(cfg, h[s - 1].now, x) && !ReportedBy(cfg, h, s)
  }

  /** The end is due when the closing run is complete and the reported event is still old enough. */
  ghost predicate EndDue(cfg: MotionConfig, h: History, s: nat, x: Sample)
    requires 0 < s <= |h|
  {
    LastAll(h + [x], s, cfg.minEndFrames, AtMostEnd(cfg)) && ReportedBy(cfg, h, s) && x.now - h[s - 1].now >= cfg.minDuration
  }

  /** During the event entered as sample `s - 1`, sample `x` posts `t`. */
  ghost predicate ActivePost(cfg: MotionConfig, h: History, s: nat, x: Sample, t: Option<Transition>)
    requires 0 < s <= |h|
  {
    && (t.Some? && t.value.phase == Phase.Start <==> StartDue(cfg, h, s, x))
    && (t.Some? && t.value.phase == Phase.End <==> EndDue(cfg, h, s, x))
    && (t.Some? ==> Announces(h + [x], s, t.value))
    && (t.Some? && t.value.phase == Phase.End ==> t.value.event.endedAt == Some(x.now))
  }

  /**
   After every history, what one more sample makes the detector post is decided by scores and times
   alone: nothing outside an event, the start exactly when due, the end exactly when due.
   */
  lemma PostsAreReadOffHistory(cfg: MotionConfig, h: History, x: Sample)
    requires cfg.Valid()
    ensures var t, r := Processed(cfg, Run(cfg, h), x).pending, PhaseOf(cfg, h);
      && (r.Idle? ==> t.None?)
      && (r.Active? ==> ActivePost(cfg, h, r.since, x, t))
  {
    CountersRefineHistory(cfg, h);
    ReportIsReadOffHistory(cfg, h);
    if PhaseOf(cfg, h).Active? {
      ActivePosts(cfg, h, PhaseOf(cfg, h).since, Run(cfg, h), x);
    }
  }

  lemma ActivePosts(cfg: MotionConfig, h: History, s: nat, st: State, x: Sample)
    requires cfg.Valid() && PhaseOf(cfg, h) == Active(s) && AgreesActive(cfg, h, s, st)
    requires st.pending.None? && (st.startEmitted <==> ReportedBy(cfg, h, s))
    ensures ActivePost(cfg, h, s, x, Processed(cfg, st, x).pending)
  {
    ClosingMeans(cfg, h, s, st, x);
    ExitPosts(cfg, st, x);
    var t := Processed(cfg, st, x).pending;
    if t.Some? {
      PostedPeak(h, s, st.current.value, x, t.value);
    }
  }

  lemma ClosingMeans(cfg: MotionConfig, h: History, s: nat, st: State, x: Sample)
    requires cfg.Valid() && 0 < s <= |h| && AgreesActive(cfg, h, s, st)
    ensures LastAll(h + [x], s, cfg.minEndFrames, AtMostEnd(cfg)) <==> x.score <= cfg.endScore && st.below + 1 >= cfg.minEndFrames
  {
    TrailingGrows(AtMostEnd(cfg), h, s, x);
    TrailingMeansLastAll(AtMostEnd(cfg), h + [x], s, cfg.minEndFrames);
  }

  lemma PostedPeak(h: History, s: nat, ev: Event, x: Sample, t: Transition)
    requires 0 < s <= |h| && IsPeak(h, s - 1, ev.peakScore, ev.peakPixels) && ev.startedAt == h[s - 1].now
    requires t.event.startedAt == ev.startedAt
    requires t.event.peakScore == (if x.score > ev.peakScore then x.score else ev.peakScore)
    requires t.event.peakPixels == (if x.score > ev.peakScore then x.pixels else ev.peakPixels)
    ensures Announces(h + [x], s, t)
  {
    PeakGrows(h, s - 1, ev.peakScore, ev.peakPixels, x);
  }
}
