/** The detector with its mutable fields and event objects, proved to follow MotionModel. */
module MotionDetector {
  import opened Prelude
  import opened MotionModel

  class MotionEvent {
    ghost const serial: nat
    var startedAt: real
    var endedAt: Option<real>
    var peakScore: real
    var peakPixels: nat
    var framesAbove: int

    constructor (ghost serial: nat, startedAt: real, score: real, pixels: nat, framesAbove: int)
      ensures Value() == Event(serial, startedAt, None, score, pixels, framesAbove)
      ensures this.serial == serial
    {
      this.serial := serial;
      this.startedAt, this.endedAt := startedAt, None;
      this.peakScore, this.peakPixels, this.framesAbove := score, pixels, framesAbove;
    }

    ghost function Value(): Event
      reads this
    {
      Event(serial, startedAt, endedAt, peakScore, peakPixels, framesAbove)
    }
  }

  datatype Image = Image(ndim: nat, isUint8: bool, pixels: Frame)
  {
    predicate Gray() {
      ndim == 2 && isUint8
    }
  }
  datatype FrameError = NotTwoDimensional | NotUint8

  class Detector {
    const cfg: MotionConfig
    var prev1: Option<Frame>
    var prev2: Option<Frame>
    var above: nat
    var below: nat
    var current: MotionEvent?
    var pending: Option<(Phase, MotionEvent)>
    var startEmitted: bool
    ghost var issued: nat

    /** Identity of event objects agrees with equality of serials. */
    ghost predicate Valid()
      reads this
    {
      && (current != null ==> current.serial < issued)
      && (pending.Some? ==> pending.value.1.serial < issued)
      && (current != null && pending.Some? ==>
            (pending.value.1 == current <==> pending.value.1.serial == current.serial))
    }

    ghost function Hysteresis(): State
      reads this, current, if pending.Some? then {pending.value.1} else {}
    {
      State(above, below,
            if current == null then None else Some(current.Value()),
            if pending.None? then None else Some(Transition(pending.value.0, pending.value.1.Value())),
            startEmitted, issued)
    }

    ghost function View(): Camera
      reads this, current, if pending.Some? then {pending.value.1} else {}
    {
      Camera(prev1, prev2, Hysteresis())
    }

    constructor (cfg: MotionConfig)
      ensures Valid() && this.cfg == cfg && View() == COLD
    {
      this.cfg := cfg;
      prev1, prev2, above, below := None, None, 0, 0;
      current, pending, startEmitted := null, None, false;
      issued := 0;
    }

    method ResetState()
      requires Valid()
      modifies this
      ensures Valid() && View() == COLD
    {
      prev1, prev2, above, below, issued := None, None, 0, 0, 0;
      current, pending, startEmitted := null, None, false;
    }

    method ProcessFrame(image: Image, now: real) returns (err: Option<FrameError>)
      requires Valid()
      requires image.Gray() ==> FrameFits(View(), image.pixels)
      modifies this, current
      ensures Valid()
      ensures err == if image.ndim != 2 then Some(NotTwoDimensional)
                     else if !image.isUint8 then Some(NotUint8) else None
      ensures View() == if err.Some? then old(View())
                        else MotionModel.ProcessFrame(cfg, old(View()), image.pixels, now)
    {
      if image.ndim != 2 { return Some(NotTwoDimensional); }
      if !image.isUint8 { return Some(NotUint8); }
      err := None;
      var frame := image.pixels;
      if prev1.None? {
        prev1 := Some(frame);
        return;
      }
      if prev2.None? {
        prev2 := prev1;
        prev1 := Some(frame);
        return;
      }
      var changed := ChangedPixels(frame, prev1.value, cfg.pixelDiff);
      Update(Score(changed, |frame|), changed, now);
      prev2 := prev1;
      prev1 := Some(frame);
    }

    method PollEvent() returns (t: Option<(Phase, MotionEvent)>)
      requires Valid()
      modifies this`pending
      ensures Valid() && Hysteresis() == Poll(old(Hysteresis()))
      ensures t == old(pending) && pending.None?
    {
      t := pending;
      pending := None;
    }

    method Update(score: real, pixels: nat, now: real)
      requires Valid()
      modifies this`above, this`below, this`current, this`pending, this`startEmitted, this`issued, current
      ensures Valid() && Hysteresis() == UpdateHysteresis(cfg, old(Hysteresis()), score, pixels, now)
    {
      if current == null {
        LookForOnset(score, pixels, now);
      } else {
        LookForExit(score, pixels, now);
      }
    }

    method LookForOnset(score: real, pixels: nat, now: real)
      requires Valid() && current == null
      modifies this`above, this`below, this`current, this`issued
      ensures Valid() && Hysteresis() == SeekOnset(cfg, old(Hysteresis()), score, pixels, now)
    {
      if score >= cfg.startScore {
        above := above + 1;
        below := 0;
        if above >= cfg.minStartFrames {
          current := new MotionEvent(issued, now, score, pixels, above);
          issued := issued + 1;
          above := 0;
        }
      } else {
        above := 0;
      }
    }

    method LookForExit(score: real, pixels: nat, now: real)
      requires Valid() && current != null
      modifies this`above, this`below, this`current, this`pending, this`startEmitted, current
      ensures Valid() && Hysteresis() == SeekExit(cfg, old(Hysteresis()), score, pixels, now)
    {
      if score > current.peakScore {
        current.peakScore := score;
        current.peakPixels := pixels;
      }
      if score <= cfg.endScore {
        below := below + 1;
        above := 0;
        if below >= cfg.minEndFrames {
          Close(now);
        }
      } else {
        below := 0;
        EmitStart(now);
      }
    }

    method EmitStart(now: real)
      requires Valid() && current != null
      modifies this`pending, this`startEmitted
      ensures Valid() && Hysteresis() == MaybeEmitStart(cfg, old(Hysteresis()), now)
    {
      if startEmitted || pending.Some? { return; }
      if now - current.startedAt >= cfg.minDuration {
        pending := Some((Start, current));
        startEmitted := true;
      }
    }

    method Close(now: real)
      requires Valid() && current != null
      modifies this`above, this`below, this`current, this`pending, this`startEmitted, current
      ensures Valid() && Hysteresis() == CloseEvent(cfg, old(Hysteresis()), now)
    {
      var evt := current;
      current := null;
      below := 0;
      above := 0;
      var startWasEmitted := startEmitted;
      startEmitted := false;
      if now - evt.startedAt < cfg.minDuration || !startWasEmitted { return; }
      evt.endedAt := Some(now);
      pending := Some((End, evt));
    }
  }

  /**
   The passive runner: gate the frame, process it, poll once, post what came out.
   `inputs` records the frames that passed the gates since the last start.
   */
  class Runner {
    const detector: Detector
    const size: nat
    var running: bool
    var warmupUntil: real
    ghost var inputs: seq<Input>
    ghost var posted: seq<Transition>

    ghost predicate Valid()
      reads this, detector, detector.current, if detector.pending.Some? then {detector.pending.value.1} else {}
    {
      && detector.Valid() && size > 0
      && AllOfSize(inputs, size) && NoRestart(inputs)
      && detector.View() == FrameRun(detector.cfg, inputs, size)
      && posted == Log(detector.cfg, SamplesOf(detector.cfg, inputs, size))
    }

    ghost function View(): (bool, real, seq<Input>, seq<Transition>, Camera)
      reads this, detector, detector.current, if detector.pending.Some? then {detector.pending.value.1} else {}
    {
      (running, warmupUntil, inputs, posted, detector.View())
    }

    constructor (detector: Detector, size: nat)
      requires detector.Valid() && detector.View() == COLD && size > 0
      ensures Valid() && this.detector == detector && this.size == size && !running && inputs == []
    {
      this.detector, this.size := detector, size;
      running, warmupUntil, inputs, posted := false, 0.0, [], [];
    }

    /** Nothing happens while the reading thread, which a passive runner has none of, is alive. */
    method StartRunner(threadAlive: bool, monotonic: real, warmupSeconds: real)
      requires Valid()
      modifies this, detector
      ensures Valid()
      ensures threadAlive ==> View() == old(View())
      ensures !threadAlive ==> running && warmupUntil == monotonic + warmupSeconds && inputs == [] && detector.View() == COLD
    {
      if threadAlive { return; }
      running := true;
      detector.ResetState();
      warmupUntil := monotonic + warmupSeconds;
      inputs, posted := [], [];
    }

    method StopRunner()
      requires Valid()
      modifies this`running
      ensures Valid() && !running
    {
      running := false;
    }

    /** The locked section: process, poll, and hand over what was polled. */
    method FeedDetector(image: Image, now: real) returns (err: Option<FrameError>, out: Option<(Phase, MotionEvent)>)
      requires detector.Valid() && (image.Gray() ==> FrameFits(detector.View(), image.pixels))
      requires detector.pending.None?
      modifies detector, detector.current
      ensures detector.Valid()
      ensures err.Some? <==> !image.Gray()
      ensures err.Some? ==> detector.View() == old(detector.View()) && out.None?
      ensures err.None? ==>
        var fed := MotionModel.ProcessFrame(detector.cfg, old(detector.View()), image.pixels, now);
        && detector.View() == fed.(hys := Poll(fed.hys))
        && fed.hys.pending == (if out.None? then None else Some(Transition(out.value.0, out.value.1.Value())))
    {
      out := None;
      err := detector.ProcessFrame(image, now);
      if err.Some? { return; }
      out := detector.PollEvent();
    }

    /** A frame that passed the gates is recorded, and what it made the detector report is posted. */
    method Accept(image: Image, now: real)
      requires Valid() && image.Gray() && |image.pixels| == size
      modifies this`posted, this`inputs, detector, detector.current
      ensures Valid() && inputs == old(inputs) + [Captured(image.pixels, now)]
    {
      ghost var x := Captured(image.pixels, now);
      OneMoreFrame(detector.cfg, inputs, x, size);
      FramesAreSamples(detector.cfg, inputs, size);
      var _, out := FeedDetector(image, now);
      inputs := inputs + [x];
      posted := posted + (if out.Some? then [Transition(out.value.0, out.value.1.Value())] else []);
    }

    /** Any other frame changes nothing and posts nothing. */
    method Refuse(image: Image, now: real) returns (err: Option<FrameError>)
      requires Valid() && !image.Gray()
      modifies detector, detector.current
      ensures Valid() && err.Some?
    {
      FramesAreSamples(detector.cfg, inputs, size);
      var out;
      err, out := FeedDetector(image, now);
    }

    method ProcessFrame(image: Image, monotonic: real, now: real) returns (err: Option<FrameError>)
      requires Valid() && (running && monotonic >= warmupUntil && image.Gray() ==> |image.pixels| == size)
      modifies this`posted, this`inputs, detector, detector.current
      ensures Valid()
      ensures err.Some? <==> running && monotonic >= warmupUntil && !image.Gray()
      ensures inputs == old(inputs) +
        if running && monotonic >= warmupUntil && err.None? then [Captured(image.pixels, now)] else []
    {
      err := None;
      if !running { return; }
      if monotonic < warmupUntil { return; }
      if image.Gray() {
        Accept(image, now);
      } else {
        err := Refuse(image, now);
      }
    }
  }
}
