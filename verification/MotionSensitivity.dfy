/** A detector at a higher sensitivity simulates the one at a lower sensitivity over every run. */
module MotionSensitivity {
  import opened Prelude
  import opened MotionModel

  function PixelDiffOf(s: int): int
    requires 1 <= s <= 10
  {
    [20, 15, 12, 10, 8, 6, 5, 4, 3, 3][s - 1]
  }

  function StartScoreOf(s: int): real
    requires 1 <= s <= 10
  {
    [0.020, 0.015, 0.010, 0.008, 0.006, 0.004, 0.003, 0.002, 0.0015, 0.001][s - 1]
  }

  function ConfigFromSensitivity(sensitivity: int): (cfg: MotionConfig) {
    var s := Max(1, Min(10, sensitivity));
    MotionConfig(PixelDiffOf(s), StartScoreOf(s), StartScoreOf(s) / 3.0, 2, 10, 0.8)
  }

  predicate AtLeastAsSensitive(hi: MotionConfig, lo: MotionConfig) {
    && hi.pixelDiff <= lo.pixelDiff
    && hi.startScore <= lo.startScore
    && hi.endScore <= lo.endScore
    && hi.minStartFrames == lo.minStartFrames
    && hi.minEndFrames == lo.minEndFrames
    && hi.minDuration == lo.minDuration
  }

  lemma DialIsMonotone(s: int, s': int)
    requires s <= s'
    ensures ConfigFromSensitivity(s).Valid()
    ensures AtLeastAsSensitive(ConfigFromSensitivity(s'), ConfigFromSensitivity(s))
  {
    var a, b := Max(1, Min(10, s)), Max(1, Min(10, s'));
    assert StartScoreOf(b) <= StartScoreOf(a);
  }

  /** The middle of the dial is the detector's own default. */
  lemma DialFiveIsDefault()
    ensures ConfigFromSensitivity(5) == MotionConfig(8, 0.006, 0.002, 2, 10, 0.8)
  {
  }

  lemma {:induction false} LowerThresholdSeesMore(frame: Frame, prev: Frame, lo: int, hi: int)
    requires |frame| == |prev| && hi <= lo
    ensures ChangedPixels(frame, prev, lo) <= ChangedPixels(frame, prev, hi)
  {
    if |frame| > 0 {
      LowerThresholdSeesMore(frame[..|frame| - 1], prev[..|frame| - 1], lo, hi);
    }
  }

  lemma ScoreIsMonotone(a: nat, b: nat, size: nat)
    requires a <= b && size > 0
    ensures Score(a, size) <= Score(b, size)
  {
    assert (b - a) as real / size as real >= 0.0;
  }

  /** The sensitive detector is in an event whenever the other is, opened it no later, and has reported it if the other has. */
  predicate Covers(hi: State, lo: State) {
    && (lo.current.Some? ==> hi.current.Some? && hi.current.value.startedAt <= lo.current.value.startedAt)
    && (lo.startEmitted ==> hi.startEmitted)
  }

  predicate Simulates(cfg: MotionConfig, hi: State, lo: State) {
    && Covers(hi, lo)
    && hi.pending.None? && lo.pending.None?
    && lo.above < cfg.minStartFrames && hi.above < cfg.minStartFrames
    && (lo.current.Some? ==> hi.below <= lo.below < cfg.minEndFrames)
    && (lo.current.None? ==> lo.below == 0 && !lo.startEmitted)
    && (hi.current.None? ==> hi.below == 0 && lo.above <= hi.above)
  }

  predicate NotAfter(st: State, now: real) {
    st.current.Some? ==> st.current.value.startedAt <= now
  }

  lemma StepSimulates(hiCfg: MotionConfig, loCfg: MotionConfig, hi: State, lo: State, x: Sample, y: Sample)
    requires AtLeastAsSensitive(hiCfg, loCfg) && hiCfg.Valid() && loCfg.Valid()
    requires Simulates(loCfg, hi, lo)
    requires y.score <= x.score && x.now == y.now
    requires NotAfter(hi, x.now)
    ensures Simulates(loCfg, Poll(Processed(hiCfg, hi, x)), Poll(Processed(loCfg, lo, y)))
    ensures NotAfter(Poll(Processed(hiCfg, hi, x)), x.now)
  {
  }

  lemma FeedSimulates(hiCfg: MotionConfig, loCfg: MotionConfig, hi: Camera, lo: Camera, x: Input)
    requires AtLeastAsSensitive(hiCfg, loCfg) && hiCfg.Valid() && loCfg.Valid()
    requires hi.prev1 == lo.prev1 && hi.prev2 == lo.prev2 && Simulates(loCfg, hi.hys, lo.hys)
    requires x.Captured? ==> FrameFits(hi, x.frame) && NotAfter(hi.hys, x.now)
    ensures var hi', lo' := Feed(hiCfg, hi, x), Feed(loCfg, lo, x);
      && hi'.prev1 == lo'.prev1 && hi'.prev2 == lo'.prev2
      && Simulates(loCfg, hi'.hys, lo'.hys)
      && (x.Captured? ==> NotAfter(hi'.hys, x.now))
      && (x.Restart? ==> hi'.hys.current.None?)
  {
    if x.Captured? && hi.prev1.Some? && hi.prev2.Some? {
      var a := ChangedPixels(x.frame, hi.prev1.value, hiCfg.pixelDiff);
      var b := ChangedPixels(x.frame, lo.prev1.value, loCfg.pixelDiff);
      LowerThresholdSeesMore(x.frame, hi.prev1.value, loCfg.pixelDiff, hiCfg.pixelDiff);
      ScoreIsMonotone(b, a, |x.frame|);
      StepSimulates(hiCfg, loCfg, hi.hys, lo.hys,
        Sample(Score(a, |x.frame|), a, x.now), Sample(Score(b, |x.frame|), b, x.now));
    }
  }

  /** Any two configurations ordered by sensitivity, on the same frames and restarts. */
  lemma {:induction false} HigherSensitivitySimulates(hiCfg: MotionConfig, loCfg: MotionConfig, inputs: seq<Input>, size: nat)
    requires AtLeastAsSensitive(hiCfg, loCfg) && hiCfg.Valid() && loCfg.Valid()
    requires size > 0 && AllOfSize(inputs, size) && MonotoneInputs(inputs)
    ensures var hi, lo := FrameRun(hiCfg, inputs, size), FrameRun(loCfg, inputs, size);
      && hi.prev1 == lo.prev1 && hi.prev2 == lo.prev2
      && Simulates(loCfg, hi.hys, lo.hys)
      && (forall t :: (forall i :: 0 <= i < |inputs| && inputs[i].Captured? ==> inputs[i].now <= t) ==> NotAfter(hi.hys, t))
  {
    if |inputs| > 0 {
      var n := |inputs| - 1;
      var g, x := inputs[..n], inputs[n];
      HigherSensitivitySimulates(hiCfg, loCfg, g, size);
      var hi, lo := FrameRun(hiCfg, g, size), FrameRun(loCfg, g, size);
      if x.Captured? {
        assert forall i :: 0 <= i < n && g[i].Captured? ==> inputs[i].now <= inputs[n].now;
      }
      FeedSimulates(hiCfg, loCfg, hi, lo, x);
    }
  }

  /** The dial: after every prefix of any run, setting `s'` covers setting `s`. */
  lemma SensitivitySimulation(s: int, s': int, inputs: seq<Input>, size: nat)
    requires s <= s'
    requires size > 0 && AllOfSize(inputs, size) && MonotoneInputs(inputs)
    ensures forall k :: 0 <= k <= |inputs| ==>
      Covers(FrameRun(ConfigFromSensitivity(s'), inputs[..k], size).hys,
             FrameRun(ConfigFromSensitivity(s), inputs[..k], size).hys)
  {
    DialIsMonotone(s, s');
    DialIsMonotone(s', s');
    forall k | 0 <= k <= |inputs|
      ensures Covers(FrameRun(ConfigFromSensitivity(s'), inputs[..k], size).hys,
                     FrameRun(ConfigFromSensitivity(s), inputs[..k], size).hys)
    {
      HigherSensitivitySimulates(ConfigFromSensitivity(s'), ConfigFromSensitivity(s), inputs[..k], size);
    }
  }
}
