/**
 How the handler answers: each outcome in terms of the state and the request before the call, the
 rate gate over whole runs, and the ranges that settings stay in.
 */
module ControlOutcomes {
  import opened Prelude
  import opened Control
  import Text
  import RS = RestartSchedule

  // ----- answers -----

  /** The request id, if any, is newer than the last one applied. */
  predicate Fresh(st: State, x: Call) {
    x.requestId == 0 || x.requestId > st.lastRequestId
  }

  /** The request gets past the replay gate, names something, and is found valid over a readable configuration. */
  predicate Valid(c: Codec, sensor: Sensor, st: State, x: Call)
    requires Complete(st.values)
  {
    Fresh(st, x) && x.params != map[] && Validate(sensor, st.values, x.params, x.unknown) == Fine && Readable(c, st.values)
  }

  /** Parameter `p` is requested with a value that differs from the one held. */
  predicate Differs(c: Codec, st: State, x: Call, p: Param)
    requires Complete(st.values) && Readable(c, st.values)
  {
    p in x.params && !PyEqual(GetConfig(c, st.values)[p], x.params[p])
  }

  /** Something besides the schedule is to change. */
  predicate ChangesStream(c: Codec, st: State, x: Call)
    requires Complete(st.values) && Readable(c, st.values)
  {
    exists p: Param :: p != RestartSchedule && Differs(c, st, x, p)
  }

  predicate ChangesSomething(c: Codec, st: State, x: Call)
    requires Complete(st.values) && Readable(c, st.values)
  {
    exists p: Param :: Differs(c, st, x, p)
  }

  /** Less than five seconds have passed since the last change. */
  predicate Hurried(st: State, x: Call) {
    st.lastChangeTime > 0.0 && x.now - st.lastChangeTime < 5.0
  }

  lemma PendingMeans(c: Codec, st: State, x: Call)
    requires Complete(st.values) && Readable(c, st.values)
    ensures Pending(c, st, x) != map[] <==> ChangesSomething(c, st, x)
    ensures Pending(c, st, x).Keys == {RestartSchedule} <==> ChangesSomething(c, st, x) && !ChangesStream(c, st, x)
    ensures Pending(c, st, x) != map[] ==> (TooSoon(st, x, Pending(c, st, x)) <==> Hurried(st, x) && ChangesStream(c, st, x))
  {
    var changes := Pending(c, st, x);
    assert forall p: Param :: p in changes <==> Differs(c, st, x, p);
    if changes.Keys == {RestartSchedule} {
      assert RestartSchedule in changes;
      assert forall p: Param :: p in changes ==> p in changes.Keys;
    } else if changes != map[] {
      assert changes.Keys != {};
      var p := KeyBesides(changes.Keys, RestartSchedule);
      assert Differs(c, st, x, p);
    }
  }

  /** The reply of the rate gate: exactly for a valid request that changes the stream within five seconds of the last change. */
  lemma RateGateAnswers(c: Codec, sensor: Sensor, st: State, x: Call)
    requires Complete(st.values)
    ensures Step(c, sensor, st, x).1 == Rejected(429) <==>
      Valid(c, sensor, st, x) && ChangesStream(c, st, x) && Hurried(st, x)
  {
    if Readable(c, st.values) { PendingMeans(c, st, x); }
  }

  lemma SettlingRefusesNothing(c: Codec, st: State, x: Call)
    requires Complete(st.values)
    ensures Settle(c, st, x).1 != Rejected(409) && Settle(c, st, x).1 != Rejected(400)
  {
  }

  /** Stale requests, and only those, are answered 409; empty or invalid ones, and only those, 400. */
  lemma RefusalAnswers(c: Codec, sensor: Sensor, st: State, x: Call)
    requires Complete(st.values)
    ensures var o := Step(c, sensor, st, x).1;
      && (o == Rejected(409) <==> !Fresh(st, x))
      && (o == Rejected(400) <==>
            Fresh(st, x) && ((x.params == map[] && x.unknown == {}) || Validate(sensor, st.values, x.params, x.unknown) == Refused))
  {
    SettlingRefusesNothing(c, st, x);
    var settled := Settle(c, st, x);
    assert Step(c, sensor, st, x).1 ==
      if !Fresh(st, x) then Rejected(409)
      else if x.params == map[] && x.unknown == {} then Rejected(400)
      else match Validate(sensor, st.values, x.params, x.unknown)
        case Refused => Rejected(400)
        case Broken => Raised
        case Fine => settled.1;
  }

  /** A valid request is unchanged, applied, rate-limited, or raises at the save, and this says which. */
  lemma ValidAnswers(c: Codec, sensor: Sensor, st: State, x: Call)
    requires Complete(st.values) && Valid(c, sensor, st, x)
    ensures var o := Step(c, sensor, st, x).1;
      && (o == Unchanged <==> !ChangesSomething(c, st, x))
      && (o.Applied? <==> ChangesSomething(c, st, x) && !(ChangesStream(c, st, x) && Hurried(st, x)) && x.disk.Writable?)
      && (o.Applied? ==> o.restartRequired == ChangesStream(c, st, x))
  {
    PendingMeans(c, st, x);
    assert Step(c, sensor, st, x) == Settle(c, st, x);
  }

  lemma EqualsBoolean(v: Value, b: bool)
    requires v.IntV?
    ensures PyEqual(v, BoolV(b)) <==> v.n == if b then 1 else 0
  {
  }

  /** Python's booleans count as one and zero: `True` for a parameter that holds 1 is no change. */
  lemma BooleanIsItsNumber(c: Codec, st: State, x: Call, p: Param, b: bool)
    requires Complete(st.values) && Readable(c, st.values) && IsPlainInt(p)
    requires p in x.params && x.params[p] == BoolV(b)
    ensures Differs(c, st, x, p) <==> Text.ParseInt(st.values[p]) != Some(if b then 1 else 0)
  {
    var held := GetConfig(c, st.values)[p];
    assert ReadParam(c, p, st.values[p]) == Some(held);
    assert held.IntV? && Text.ParseInt(st.values[p]) == Some(held.n);
    EqualsBoolean(held, b);
  }

  /** A changed schedule is stored under the name of whoever sent it; without a name, the server. */
  lemma ScheduleCarriesOrigin(payload: RS.RawSchedule, origin: string)
    requires payload.Dict?
    ensures RS.KnownSource(origin) ==> NormalRequest(payload, origin).source == origin
    ensures origin == "" ==> NormalRequest(payload, origin).source == "server"
    ensures NormalRequest(payload, origin).days == RS.Normalise(payload).days
    ensures NormalRequest(payload, origin).time == RS.Normalise(payload).time
    ensures NormalRequest(payload, origin).enabled == RS.IsEnabled(payload)
  {
    var o := OriginOf(origin);
    if RS.KnownSource(o) {
      RS.CleanSourceStays(o, o);
    }
  }

  // ----- the rate gate over runs -----

  predicate AppliedAt(c: Codec, sensor: Sensor, st: State, xs: seq<Call>, i: nat)
    requires Complete(st.values) && i < |xs|
  {
    Step(c, sensor, Final(c, sensor, st, xs[..i]), xs[i]).1.Applied?
  }

  lemma StepSetsChangeTime(c: Codec, sensor: Sensor, st: State, x: Call)
    requires Complete(st.values)
    ensures var (st', o) := Step(c, sensor, st, x); st'.lastChangeTime == if o.Applied? then x.done else st.lastChangeTime
  {
    StepStores(c, sensor, st, x);
  }

  lemma ChangeTimeAfter(c: Codec, sensor: Sensor, st: State, xs: seq<Call>, k: nat)
    requires Complete(st.values) && k < |xs|
    ensures Final(c, sensor, st, xs[..k + 1]).lastChangeTime ==
      if AppliedAt(c, sensor, st, xs, k) then xs[k].done else Final(c, sensor, st, xs[..k]).lastChangeTime
  {
    assert xs[..k + 1][..k] == xs[..k] && xs[..k + 1][k] == xs[k];
    StepSetsChangeTime(c, sensor, Final(c, sensor, st, xs[..k]), xs[k]);
  }

  /** After an applied call and none since, the time of the last change is when that call was done. */
  lemma {:induction false} LastChangeIsLastApplied(c: Codec, sensor: Sensor, st: State, xs: seq<Call>, i: nat, j: nat)
    requires Complete(st.values) && i < j <= |xs| && AppliedAt(c, sensor, st, xs, i)
    requires forall k :: i < k < j ==> !AppliedAt(c, sensor, st, xs, k)
    ensures Final(c, sensor, st, xs[..j]).lastChangeTime == xs[i].done
  {
    ChangeTimeAfter(c, sensor, st, xs, j - 1);
    if i < j - 1 {
      LastChangeIsLastApplied(c, sensor, st, xs, i, j - 1);
    }
  }

  lemma AppliedIsUnhurried(c: Codec, sensor: Sensor, st: State, x: Call)
    requires Complete(st.values) && Step(c, sensor, st, x).1.Applied?
    ensures Valid(c, sensor, st, x) && !(ChangesStream(c, st, x) && Hurried(st, x))
  {
    StepStores(c, sensor, st, x);
    PendingMeans(c, st, x);
  }

  /**
   Over every run: an applied call that changes anything besides the schedule starts at least five
   seconds after the applied call before it was done.
   */
  lemma AppliedCallsAreSpaced(c: Codec, sensor: Sensor, st: State, xs: seq<Call>, i: nat, j: nat)
    requires Complete(st.values) && i < j < |xs|
    requires AppliedAt(c, sensor, st, xs, i) && AppliedAt(c, sensor, st, xs, j)
    requires xs[i].done > 0.0 && forall k :: i < k < j ==> !AppliedAt(c, sensor, st, xs, k)
    ensures var mid := Final(c, sensor, st, xs[..j]);
      Readable(c, mid.values) && (ChangesStream(c, mid, xs[j]) ==> xs[j].now >= xs[i].done + 5.0)
  {
    LastChangeIsLastApplied(c, sensor, st, xs, i, j);
    AppliedIsUnhurried(c, sensor, Final(c, sensor, st, xs[..j]), xs[j]);
  }

  // ----- the ranges settings stay in -----

  /** What the documentation allows a setting to be, apart from what the sensor says. */
  predicate Documented(p: Param, v: Value) {
    match p
    case Width => v.IntV?
    case Height => v.IntV?
    case Fps => v.IntV? && v.n >= 1
    case Bitrate => v.IntV? && 500_000 <= v.n <= 8_000_000
    case H264Profile => v.StrV? && v.s in ["baseline", "main", "high"]
    case KeyframeInterval => v.IntV? && 1 <= v.n <= 120
    case Rotation => v.IntV? && (v.n == 0 || v.n == 180)
    case MotionSensitivity => v.IntV? && 1 <= v.n <= 10
    case HFlip => v.BoolV?
    case VFlip => v.BoolV?
    case MotionDetection => v.BoolV?
    case ImageQuality => v.ImageV?
    case RestartSchedule => v.ScheduleV? && v.payload.Dict?
  }

  predicate AllDocumented(c: Codec, values: Texts)
    requires Complete(values)
  {
    Readable(c, values) && forall p: Param :: Documented(p, GetConfig(c, values)[p])
  }

  lemma ValidIsDocumented(sensor: Sensor, p: Param, v: Value, origin: string)
    requires ParamOk(sensor, p, v) && (IsPlainInt(p) || p.MotionSensitivity? ==> v.IntV?)
    ensures Documented(p, v) && Documented(p, Effective(v, origin))
  {
  }

  lemma StepStaysDocumented(c: Codec, sensor: Sensor, st: State, x: Call)
    requires Complete(st.values) && AllDocumented(c, st.values)
    requires WellTyped(x.params) && AllFaithful(c, x.params, x.origin)
    ensures AllDocumented(c, Step(c, sensor, st, x).0.values)
  {
    StepStores(c, sensor, st, x);
    if Storing(c, sensor, st, x) {
      StoringMeans(c, sensor, st, x);
      WellTypedOverride(c, sensor, st, x);
      var applied := EffectiveChanges(Pending(c, st, x), x.origin);
      forall p | p in applied
        ensures Documented(p, applied[p])
      {
        ValidIsDocumented(sensor, p, x.params[p], x.origin);
      }
    }
  }

  /** Over every run of well-typed calls every setting stays within its documented range. */
  lemma {:induction false} SettingsStayDocumented(c: Codec, sensor: Sensor, st: State, xs: seq<Call>)
    requires Complete(st.values)
    requires forall i :: 0 <= i < |xs| ==> WellTyped(xs[i].params) && AllFaithful(c, xs[i].params, xs[i].origin)
    ensures AllDocumented(c, st.values) ==> AllDocumented(c, Final(c, sensor, st, xs).values)
  {
    if |xs| > 0 && AllDocumented(c, st.values) {
      SettingsStayDocumented(c, sensor, st, xs[..|xs| - 1]);
      StepStaysDocumented(c, sensor, Final(c, sensor, st, xs[..|xs| - 1]), xs[|xs| - 1]);
    }
  }

  // ----- nothing within range is refused -----

  lemma {:induction false} OverallCoversEach(modes: seq<Mode>, i: nat)
    requires i < |modes|
    ensures modes[i].maxFps.Floor <= MaxFpsOverall(modes)
    ensures exists k :: 0 <= k < |modes| && modes[k].maxFps.Floor == MaxFpsOverall(modes)
  {
    if |modes| == 1 {
      assert modes[0].maxFps.Floor == MaxFpsOverall(modes);
    } else {
      OverallCoversEach(modes[1..], if i > 0 then i - 1 else 0);
      var k :| 0 <= k < |modes[1..]| && modes[1..][k].maxFps.Floor == MaxFpsOverall(modes[1..]);
      assert modes[k + 1] == modes[1..][k];
      assert modes[if modes[0].maxFps.Floor >= MaxFpsOverall(modes[1..]) then 0 else k + 1].maxFps.Floor == MaxFpsOverall(modes);
    }
  }

  /** The rate of a size is that of the first mode of this size. */
  lemma {:induction false} FirstModeDecides(modes: seq<Mode>, i: nat)
    requires i < |modes| && forall k :: 0 <= k < i ==> modes[k].width != modes[i].width || modes[k].height != modes[i].height
    ensures MaxFpsFor(modes, modes[i].width, modes[i].height) == Some(modes[i].maxFps)
  {
    if i > 0 {
      FirstModeDecides(modes[1..], i - 1);
    }
  }

  lemma {:induction false} FirstModeExists(modes: seq<Mode>, w: int, h: int) returns (i: nat)
    requires IsMode(modes, w, h)
    ensures i < |modes| && modes[i].width == w && modes[i].height == h
    ensures forall k :: 0 <= k < i ==> modes[k].width != w || modes[k].height != h
  {
    i := 0;
    while modes[i].width != w || modes[i].height != h
      invariant i < |modes| && forall k :: 0 <= k < i ==> modes[k].width != w || modes[k].height != h
      invariant exists k :: i <= k < |modes| && modes[k].width == w && modes[k].height == h
      decreases |modes| - i
    {
      i := i + 1;
    }
  }

  /** A number no lower and no higher than the bounds there are, or one of the allowed texts. */
  predicate Suits(spec: Spec, x: Item) {
    && (spec.Range? ==> x.number.Some?)
    && (spec.Range? && spec.lo.Some? ==> spec.lo.value <= x.number.value)
    && (spec.Range? && spec.hi.Some? ==> x.number.value <= spec.hi.value)
    && (spec.Choices? ==> x.text.Some? && x.text.value in spec.allowed)
  }

  /** Requested image controls that the sensor knows suit what it says of them. */
  predicate ImageFits(sensor: Sensor, params: Config) {
    ImageQuality in params && params[ImageQuality].ImageV? ==>
      var image := params[ImageQuality].image;
      forall k :: k in image && k in sensor.controls ==> Suits(sensor.controls[k], image[k])
  }

  /** Conversely, what passes validation suits the sensor. */
  lemma ValidImageFits(sensor: Sensor, values: Texts, params: Config, unknown: set<string>)
    requires Complete(values)
    ensures Validate(sensor, values, params, unknown) == Fine ==> ImageFits(sensor, params)
  {
    if Validate(sensor, values, params, unknown) == Fine && ImageQuality in params {
      assert ParamOk(sensor, ImageQuality, params[ImageQuality]);
    }
  }

  lemma DocumentedIsValid(sensor: Sensor, params: Config, p: Param, w: int, h: int, fps: int)
    requires p in params && Documented(p, params[p]) && ImageFits(sensor, params)
    requires FitsSize(sensor, Some(w), Some(h), Some(fps))
    requires (p == Width ==> params[p] == IntV(w)) && (p == Height ==> params[p] == IntV(h)) && (p == Fps ==> params[p] == IntV(fps))
    ensures ParamOk(sensor, p, params[p])
  {
    var i := FirstModeExists(sensor.modes, w, h);
    FirstModeDecides(sensor.modes, i);
    OverallCoversEach(sensor.modes, i);
  }

  lemma WantedRequested(values: Texts, params: Config, p: Param)
    requires Complete(values) && p in params && params[p].IntV?
    ensures Wanted(values, params, p) == Some(params[p].n)
  {
  }

  /**
   A request whose values are all documented, whose image controls suit the sensor, and whose size and
   rate, taken with the stored ones, are a sensor mode and a rate it reaches, is never refused.
   */
  lemma DocumentedIsNeverRefused(c: Codec, sensor: Sensor, values: Texts, params: Config)
    requires Complete(values) && Readable(c, values) && ImageFits(sensor, params)
    requires forall p :: p in params ==> Documented(p, params[p])
    requires FitsSize(sensor, Wanted(values, params, Width), Wanted(values, params, Height), Wanted(values, params, Fps))
    ensures Validate(sensor, values, params, {}) == Fine
  {
    var w, h, fps := Wanted(values, params, Width), Wanted(values, params, Height), Wanted(values, params, Fps);
    forall p | p in params
      ensures ParamOk(sensor, p, params[p])
    {
      if p == Width || p == Height || p == Fps { WantedRequested(values, params, p); }
      DocumentedIsValid(sensor, params, p, w.value, h.value, fps.value);
    }
    assert AllParamsOk(sensor, params);
    assert ReadParam(c, Width, values[Width]).Some? && ReadParam(c, Height, values[Height]).Some? && ReadParam(c, Fps, values[Fps]).Some?;
  }
}
