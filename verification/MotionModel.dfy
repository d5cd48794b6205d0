/**
 The motion detector as a function from state and sample to state. Scores,
 thresholds and clock readings are exact rationals. An event carries a serial
 number standing for the identity of the source's event object, so that a queued
 transition and the running event can be recognised as the same object.
 */
module MotionModel {
  import opened Prelude

  type Pixel = p: int | 0 <= p < 256
  type Frame = seq<Pixel>

  datatype MotionConfig = MotionConfig(
    pixelDiff: int,
    startScore: real,
    endScore: real,
    minStartFrames: int,
    minEndFrames: int,
    minDuration: real)
  {
    predicate Valid() {
      minStartFrames >= 1 && minEndFrames >= 1 && endScore < startScore
    }
  }

  datatype Phase = Start | End

  datatype Event = Event(
    serial: nat,
    startedAt: real,
    endedAt: Option<real>,
    peakScore: real,
    peakPixels: nat,
    framesAbove: int)

  datatype Transition = Transition(phase: Phase, event: Event)

  datatype State = State(
    above: nat,
    below: nat,
    current: Option<Event>,
    pending: Option<Transition>,
    startEmitted: bool,
    issued: nat)

  const IDLE := State(0, 0, None, None, false, 0)

  // ----- frame differencing -----

  function Distance(x: int, y: int): nat {
    if x < y then y - x else x - y
  }

  function ChangedPixels(frame: Frame, prev: Frame, threshold: int): (n: nat)
    requires |frame| == |prev|
    ensures n <= |frame|
  {
    if |frame| == 0 then 0
    else
      var n := |frame| - 1;
      ChangedPixels(frame[..n], prev[..n], threshold) + (if Distance(frame[n], prev[n]) > threshold then 1 else 0)
  }

  /** The pixels that got brighter or darker by more than the threshold. */
  function ChangedAt(frame: Frame, prev: Frame, threshold: int): set<int>
    requires |frame| == |prev|
  {
    set i | 0 <= i < |frame| && (frame[i] - prev[i] > threshold || prev[i] - frame[i] > threshold)
  }

  /** The count is that of the changed pixels, in either direction. */
  lemma {:induction false} ChangedPixelsCounts(frame: Frame, prev: Frame, threshold: int)
    requires |frame| == |prev|
    ensures ChangedPixels(frame, prev, threshold) == |ChangedAt(frame, prev, threshold)|
  {
    var n := |frame| - 1;
    if n >= 0 {
      ChangedPixelsCounts(frame[..n], prev[..n], threshold);
      var all, init := ChangedAt(frame, prev, threshold), ChangedAt(frame[..n], prev[..n], threshold);
      assert all == if n in all then init + {n} else init;
    }
  }

  function Score(changed: nat, size: nat): real
    requires size > 0
  {
    changed as real / size as real
  }

  // ----- hysteresis -----

  /** The queued transition after its event object was updated in place. */
  function Refresh(pending: Option<Transition>, ev: Event): Option<Transition> {
    if pending.Some? && pending.value.event.serial == ev.serial
    then Some(pending.value.(event := ev)) else pending
  }

  function RaisePeak(st: State, score: real, pixels: nat): State
    requires st.current.Some?
  {
    if score > st.current.value.peakScore then
      var ev := st.current.value.(peakScore := score, peakPixels := pixels);
      st.(current := Some(ev), pending := Refresh(st.pending, ev))
    else st
  }

  function MaybeEmitStart(cfg: MotionConfig, st: State, now: real): State
    requires st.current.Some?
  {
    if st.startEmitted || st.pending.Some? then st
    else if now - st.current.value.startedAt >= cfg.minDuration then
      st.(pending := Some(Transition(Start, st.current.value)), startEmitted := true)
    else st
  }

  function CloseEvent(cfg: MotionConfig, st: State, now: real): State
    requires st.current.Some?
  {
    var ev := st.current.value;
    var closed := st.(current := None, below := 0, above := 0, startEmitted := false);
    if now - ev.startedAt < cfg.minDuration || !st.startEmitted then closed
    else closed.(pending := Some(Transition(End, ev.(endedAt := Some(now)))))
  }

  function SeekOnset(cfg: MotionConfig, st: State, score: real, pixels: nat, now: real): State
    requires st.current.None?
  {
    if score >= cfg.startScore then
      if st.above + 1 >= cfg.minStartFrames then
        st.(above := 0, below := 0, issued := st.issued + 1,
            current := Some(Event(st.issued, now, None, score, pixels, st.above + 1)))
      else st.(above := st.above + 1, below := 0)
    else st.(above := 0)
  }

  function SeekExit(cfg: MotionConfig, st: State, score: real, pixels: nat, now: real): State
    requires st.current.Some?
  {
    var up := RaisePeak(st, score, pixels);
    if score <= cfg.endScore then
      var counted := up.(below := up.below + 1, above := 0);
      if counted.below >= cfg.minEndFrames then CloseEvent(cfg, counted, now) else counted
    else MaybeEmitStart(cfg, up.(below := 0), now)
  }

  function UpdateHysteresis(cfg: MotionConfig, st: State, score: real, pixels: nat, now: real): State {
    if st.current.None? then SeekOnset(cfg, st, score, pixels, now)
    else SeekExit(cfg, st, score, pixels, now)
  }

  // ----- the runner: process one sample, then poll -----

  datatype Sample = Sample(score: real, pixels: nat, now: real)
  type History = seq<Sample>

  function Poll(st: State): State {
    st.(pending := None)
  }

  function Processed(cfg: MotionConfig, st: State, x: Sample): State {
    UpdateHysteresis(cfg, st, x.score, x.pixels, x.now)
  }

  function Run(cfg: MotionConfig, h: History): State {
    if |h| == 0 then IDLE
    else Poll(Processed(cfg, Run(cfg, h[..|h| - 1]), h[|h| - 1]))
  }

  /** The transitions the runner hands to the poster, in order. */
  function Log(cfg: MotionConfig, h: History): seq<Transition> {
    if |h| == 0 then []
    else
      var out := Processed(cfg, Run(cfg, h[..|h| - 1]), h[|h| - 1]).pending;
      Log(cfg, h[..|h| - 1]) + (if out.Some? then [out.value] else [])
  }

  predicate MonotoneClock(h: History) {
    forall i, j :: 0 <= i < j < |h| ==> h[i].now <= h[j].now
  }

  // ----- whole frames, with restarts -----

  datatype Input = Captured(frame: Frame, now: real) | Restart

  datatype Camera = Camera(prev1: Option<Frame>, prev2: Option<Frame>, hys: State)

  const COLD := Camera(None, None, IDLE)

  predicate FrameFits(c: Camera, frame: Frame) {
    |frame| > 0 && (c.prev1.Some? ==> |c.prev1.value| == |frame|)
  }

  function ProcessFrame(cfg: MotionConfig, c: Camera, frame: Frame, now: real): Camera
    requires FrameFits(c, frame)
  {
    if c.prev1.None? then c.(prev1 := Some(frame))
    else if c.prev2.None? then c.(prev2 := c.prev1, prev1 := Some(frame))
    else
      var changed := ChangedPixels(frame, c.prev1.value, cfg.pixelDiff);
      Camera(Some(frame), c.prev1, UpdateHysteresis(cfg, c.hys, Score(changed, |frame|), changed, now))
  }

  function Feed(cfg: MotionConfig, c: Camera, x: Input): Camera
    requires x.Captured? ==> FrameFits(c, x.frame)
  {
    match x
    case Restart => COLD
    case Captured(frame, now) => var d := ProcessFrame(cfg, c, frame, now); d.(hys := Poll(d.hys))
  }

  predicate AllOfSize(inputs: seq<Input>, size: nat) {
    forall i :: 0 <= i < |inputs| && inputs[i].Captured? ==> |inputs[i].frame| == size
  }

  function FrameRun(cfg: MotionConfig, inputs: seq<Input>, size: nat): (c: Camera)
    requires size > 0 && AllOfSize(inputs, size)
    ensures c.prev1.Some? ==> |c.prev1.value| == size
  {
    if |inputs| == 0 then COLD
    else Feed(cfg, FrameRun(cfg, inputs[..|inputs| - 1], size), inputs[|inputs| - 1])
  }

  predicate MonotoneInputs(inputs: seq<Input>) {
    forall i, j :: 0 <= i < j < |inputs| && inputs[i].Captured? && inputs[j].Captured? ==>
      inputs[i].now <= inputs[j].now
  }

  // ----- frames and samples -----

  predicate NoRestart(inputs: seq<Input>) {
    forall i :: 0 <= i < |inputs| ==> inputs[i].Captured?
  }

  /** The samples a stretch without restarts yields: every frame from the third on, against its predecessor. */
  function SamplesOf(cfg: MotionConfig, inputs: seq<Input>, size: nat): History
    requires size > 0 && AllOfSize(inputs, size) && NoRestart(inputs)
  {
    var n := |inputs| - 1;
    if n < 2 then []
    else
      var changed := ChangedPixels(inputs[n].frame, inputs[n - 1].frame, cfg.pixelDiff);
      SamplesOf(cfg, inputs[..n], size) + [Sample(Score(changed, size), changed, inputs[n].now)]
  }

  /** `x` is what comparing a frame with the one before it comes to. */
  ghost predicate IsSampleOf(cfg: MotionConfig, x: Sample, frame: Frame, prev: Frame, now: real) {
    && |frame| == |prev| > 0
    && x.now == now && x.pixels == |ChangedAt(frame, prev, cfg.pixelDiff)|
    && x.score == x.pixels as real / |frame| as real
  }

  lemma SampleCounts(cfg: MotionConfig, frame: Frame, prev: Frame, now: real)
    requires |frame| == |prev| > 0
    ensures var changed := ChangedPixels(frame, prev, cfg.pixelDiff);
      IsSampleOf(cfg, Sample(Score(changed, |frame|), changed, now), frame, prev, now)
  {
    ChangedPixelsCounts(frame, prev, cfg.pixelDiff);
  }

  /** Sample `i` compares frame `i + 2` with frame `i + 1`: the fraction of pixels that changed by more than the threshold. */
  lemma {:induction false} SamplesCount(cfg: MotionConfig, inputs: seq<Input>, size: nat)
    requires size > 0 && AllOfSize(inputs, size) && NoRestart(inputs)
    ensures var h := SamplesOf(cfg, inputs, size);
      && |h| == Max(0, |inputs| - 2)
      && forall i :: 0 <= i < |h| ==>
           IsSampleOf(cfg, h[i], inputs[i + 2].frame, inputs[i + 1].frame, inputs[i + 2].now)
  {
    var n := |inputs| - 1;
    if n >= 2 {
      SamplesCount(cfg, inputs[..n], size);
      SampleCounts(cfg, inputs[n].frame, inputs[n - 1].frame, inputs[n].now);
    }
  }

  /** Between restarts the frame-level detector is the sample-level one, and holds the last two frames. */
  lemma {:induction false} FramesAreSamples(cfg: MotionConfig, inputs: seq<Input>, size: nat)
    requires size > 0 && AllOfSize(inputs, size) && NoRestart(inputs)
    ensures var c, n := FrameRun(cfg, inputs, size), |inputs|;
      && c.prev1 == (if n >= 1 then Some(inputs[n - 1].frame) else None)
      && c.prev2 == (if n >= 2 then Some(inputs[n - 2].frame) else None)
      && c.hys == Run(cfg, SamplesOf(cfg, inputs, size))
  {
    var n := |inputs| - 1;
    if n >= 0 {
      FramesAreSamples(cfg, inputs[..n], size);
      if n >= 2 {
        var h := SamplesOf(cfg, inputs, size);
        assert h[..|h| - 1] == SamplesOf(cfg, inputs[..n], size);
      }
    }
  }

  /** One more frame: its polled transition, if any, is the one more entry of the log. */
  lemma OneMoreFrame(cfg: MotionConfig, inputs: seq<Input>, x: Input, size: nat)
    requires size > 0 && AllOfSize(inputs + [x], size) && NoRestart(inputs + [x])
    requires AllOfSize(inputs, size) && NoRestart(inputs) && x.Captured? && |x.frame| == size
    ensures var d := ProcessFrame(cfg, FrameRun(cfg, inputs, size), x.frame, x.now);
      && FrameRun(cfg, inputs + [x], size) == d.(hys := Poll(d.hys))
      && Log(cfg, SamplesOf(cfg, inputs + [x], size)) ==
         Log(cfg, SamplesOf(cfg, inputs, size)) + (if d.hys.pending.Some? then [d.hys.pending.value] else [])
  {
    var all := inputs + [x];
    assert all[..|all| - 1] == inputs;
    FramesAreSamples(cfg, inputs, size);
    var h := SamplesOf(cfg, all, size);
    if |inputs| >= 2 {
      assert all[|inputs| - 1] == inputs[|inputs| - 1];
      assert h[..|h| - 1] == SamplesOf(cfg, inputs, size);
    }
  }
}
