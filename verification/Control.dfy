/**
 The control handler's rules: validate a request against the sensor, then store what it changes.
 Settings are stored as texts, as the configuration file holds them; the JSON library
 is a parameter.
 */
module Control {
  import opened Prelude
  import Text
  import RS = RestartSchedule
  import ConfigFile

  datatype Param =
    | Width | Height | Fps | Bitrate | H264Profile | KeyframeInterval | Rotation
    | HFlip | VFlip | MotionSensitivity | MotionDetection | ImageQuality | RestartSchedule

  /** One image control's value: the number `float` makes of it, and the text when it is one. */
  datatype Item = Item(number: Option<real>, text: Option<string>)
  type Image = map<string, Item>

  datatype Value =
    | IntV(n: int) | BoolV(b: bool) | StrV(s: string) | ImageV(image: Image) | ScheduleV(payload: RS.RawSchedule)

  type Config = map<Param, Value>
  type Texts = map<Param, string>

  /** Every setting has a stored text. */
  predicate Complete(values: Texts) {
    forall p: Param :: p in values
  }

  // ----- the sensor -----

  datatype Mode = Mode(width: int, height: int, maxFps: real)
  datatype Spec = Range(lo: Option<real>, hi: Option<real>) | Choices(allowed: seq<string>) | Unchecked
  datatype Sensor = Sensor(modes: seq<Mode>, controls: map<string, Spec>)

  predicate IsMode(modes: seq<Mode>, w: int, h: int) {
    exists i :: 0 <= i < |modes| && modes[i].width == w && modes[i].height == h
  }

  /** The frame rate of the first mode of this size. */
  function MaxFpsFor(modes: seq<Mode>, w: int, h: int): (r: Option<real>)
    ensures r.Some? <==> IsMode(modes, w, h)
  {
    if |modes| == 0 then None
    else if modes[0].width == w && modes[0].height == h then Some(modes[0].maxFps)
    else
      assert IsMode(modes[1..], w, h) ==> IsMode(modes, w, h);
      MaxFpsFor(modes[1..], w, h)
  }

  /** The highest frame rate of any mode, as a whole number. */
  function MaxFpsOverall(modes: seq<Mode>): int {
    if |modes| == 0 then 240
    else if |modes| == 1 then modes[0].maxFps.Floor
    else Max(modes[0].maxFps.Floor, MaxFpsOverall(modes[1..]))
  }

  // ----- reading and storing settings -----

  datatype Codec = Codec(
    printImage: Image -> string,
    readImage: string -> Option<Image>,
    printSchedule: RS.Schedule -> string,
    readSchedule: string -> RS.RawSchedule)

  /** Parameters whose getter is a bare `int(...)`. */
  predicate IsPlainInt(p: Param) {
    p.Width? || p.Height? || p.Fps? || p.Bitrate? || p.KeyframeInterval? || p.Rotation?
  }

  predicate IsBool(p: Param) {
    p.HFlip? || p.VFlip? || p.MotionDetection?
  }

  /** The getter of a parameter; None when it raises. */
  function ReadParam(c: Codec, p: Param, text: string): Option<Value> {
    if IsPlainInt(p) then
      var n := Text.ParseInt(text);
      if n.None? then None else Some(IntV(n.value))
    else if IsBool(p) then Some(BoolV(Text.Lower(text) == "true"))
    else if p.H264Profile? then Some(StrV(text))
    else if p.MotionSensitivity? then
      var n := Text.ParseInt(text);
      Some(IntV(Max(1, Min(10, if n.None? then 5 else n.value))))
    else if p.ImageQuality? then
      var x := c.readImage(text);
      Some(ImageV(if x.None? then map[] else x.value))
    else Some(ScheduleV(RS.AsPayload(RS.Normalise(c.readSchedule(text)))))
  }

  predicate Readable(c: Codec, values: Texts)
    requires Complete(values)
  {
    forall p: Param :: ReadParam(c, p, values[p]).Some?
  }

  function GetConfig(c: Codec, values: Texts): (r: Config)
    requires Complete(values) && Readable(c, values)
    ensures forall p: Param :: p in r && ReadParam(c, p, values[p]) == Some(r[p])
  {
    map p: Param | p in values :: ReadParam(c, p, values[p]).value
  }

  function OriginOf(origin: string): string {
    if origin == "" then "server" else origin
  }

  function NormalRequest(payload: RS.RawSchedule, origin: string): RS.Schedule {
    var o := OriginOf(origin);
    RS.NormaliseFrom(if payload.Dict? then payload.(source := Some(o)) else payload, o)
  }

  /** The value a changed parameter ends up with: a schedule is normalised, anything else is taken as given. */
  function Effective(v: Value, origin: string): Value {
    if v.ScheduleV? then ScheduleV(RS.AsPayload(NormalRequest(v.payload, origin))) else v
  }

  /** The JSON library reads back what it writes for this value. */
  predicate Faithful(c: Codec, v: Value, origin: string) {
    match v
    case ImageV(x) => c.readImage(c.printImage(x)) == Some(x)
    case ScheduleV(r) =>
      var s := NormalRequest(r, origin);
      c.readSchedule(c.printSchedule(s)) == RS.AsPayload(s)
    case _ => true
  }

  predicate AllFaithful(c: Codec, params: Config, origin: string) {
    forall p :: p in params ==> Faithful(c, params[p], origin)
  }

  function Store(c: Codec, v: Value, origin: string): string {
    match v
    case IntV(n) => Text.PrintInt(n)
    case BoolV(b) => if b then "true" else "false"
    case StrV(s) => s
    case ImageV(x) => c.printImage(x)
    case ScheduleV(r) => c.printSchedule(NormalRequest(r, origin))
  }

  // ----- validation -----

  /** Python's booleans are integers. */
  function Numeric(v: Value): Option<int> {
    match v
    case IntV(n) => Some(n)
    case BoolV(b) => Some(if b then 1 else 0)
    case _ => None
  }

  predicate InRange(v: Value, lo: int, hi: int) {
    Numeric(v).Some? && lo <= Numeric(v).value <= hi
  }

  predicate ItemOk(controls: map<string, Spec>, k: string, x: Item) {
    k in controls ==>
      match controls[k]
      case Unchecked => true
      case Choices(allowed) => x.text.Some? && x.text.value in allowed
      case Range(lo, hi) =>
        && x.number.Some?
        && (lo.Some? ==> lo.value <= x.number.value)
        && (hi.Some? ==> x.number.value <= hi.value)
  }

  predicate ParamOk(sensor: Sensor, p: Param, v: Value) {
    match p
    case Width =>
      Numeric(v).Some? && (sensor.modes != [] ==> exists i :: 0 <= i < |sensor.modes| && sensor.modes[i].width == Numeric(v).value)
    case Height =>
      Numeric(v).Some? && (sensor.modes != [] ==> exists i :: 0 <= i < |sensor.modes| && sensor.modes[i].height == Numeric(v).value)
    case Fps => InRange(v, 1, MaxFpsOverall(sensor.modes))
    case Bitrate => InRange(v, 500000, 8000000)
    case H264Profile => v == StrV("baseline") || v == StrV("main") || v == StrV("high")
    case KeyframeInterval => InRange(v, 1, 120)
    case Rotation => Numeric(v) == Some(0) || Numeric(v) == Some(180)
    case HFlip => v.BoolV?
    case VFlip => v.BoolV?
    case MotionDetection => v.BoolV?
    case MotionSensitivity => InRange(v, 1, 10)
    case ImageQuality => v.ImageV? && forall k :: k in v.image ==> ItemOk(sensor.controls, k, v.image[k])
    case RestartSchedule => v.ScheduleV? && v.payload.Dict?
  }

  datatype Verdict = Fine | Refused | Broken

  /** The requested or, failing that, the stored value of a plain integer parameter. */
  function Wanted(values: Texts, params: Config, p: Param): Option<int>
    requires Complete(values)
  {
    if p in params then Numeric(params[p]) else Text.ParseInt(values[p])
  }

  /** Size and frame rate fit together. */
  predicate CrossOk(sensor: Sensor, params: Config, w: int, h: int, fps: int) {
    && (Width in params || Height in params ==> IsMode(sensor.modes, w, h))
    && (IsMode(sensor.modes, w, h) ==> fps as real <= MaxFpsFor(sensor.modes, w, h).value)
  }

  predicate AllParamsOk(sensor: Sensor, params: Config) {
    forall p :: p in params ==> ParamOk(sensor, p, params[p])
  }

  /** Broken: a stored size or rate cannot be read, which raises. */
  function Validate(sensor: Sensor, values: Texts, params: Config, unknown: set<string>): Verdict
    requires Complete(values)
  {
    if unknown != {} || !AllParamsOk(sensor, params) then Refused
    else if Text.ParseInt(values[Width]).None? || Text.ParseInt(values[Height]).None? then Broken
    else if (Width in params || Height in params)
            && !IsMode(sensor.modes, Wanted(values, params, Width).value, Wanted(values, params, Height).value) then Refused
    else if Text.ParseInt(values[Fps]).None? then Broken
    else if !CrossOk(sensor, params, Wanted(values, params, Width).value, Wanted(values, params, Height).value,
                     Wanted(values, params, Fps).value) then Refused
    else Fine
  }

  // ----- one call -----

  predicate PyEqual(a: Value, b: Value) {
    a == b || (Numeric(a).Some? && Numeric(a) == Numeric(b))
  }

  function Changes(current: Config, params: Config): (r: Config)
    requires forall p: Param :: p in current
  {
    map p | p in params && !PyEqual(current[p], params[p]) :: params[p]
  }

  const RATE_LIMIT := 5.0

  datatype State = State(values: Texts, lastRequestId: int, lastChangeTime: real)
  /** `disk` is how the operating system takes the save that the call may come to. */
  datatype Call = Call(params: Config, unknown: set<string>, requestId: int, origin: string, now: real, done: real,
                       disk: ConfigFile.Disk)
  datatype Outcome = Rejected(status: int) | Unchanged | Applied(changes: Config, restartRequired: bool) | Raised

  predicate TooSoon(st: State, x: Call, changes: Config) {
    st.lastChangeTime > 0.0 && x.now - st.lastChangeTime < RATE_LIMIT && changes.Keys != {RestartSchedule}
  }

  function NewTexts(c: Codec, changes: Config, origin: string): Texts {
    map p | p in changes :: Store(c, changes[p], origin)
  }

  /** The stored texts after storing `changes`. */
  function Stored(c: Codec, values: Texts, changes: Config, origin: string): Texts {
    values + NewTexts(c, changes, origin)
  }

  function Apply(c: Codec, st: State, x: Call, changes: Config): State {
    State(Stored(c, st.values, changes, x.origin),
          if x.requestId != 0 then x.requestId else st.lastRequestId, x.done)
  }

  /** A call that passed validation. When saving fails the new texts stay in memory, and nothing else is noted. */
  function Settle(c: Codec, st: State, x: Call): (r: (State, Outcome))
    requires Complete(st.values)
    ensures Complete(r.0.values)
  {
    if !Readable(c, st.values) then (st, Raised)
    else
      var changes := Changes(GetConfig(c, st.values), x.params);
      if changes == map[] then (st, Unchanged)
      else if TooSoon(st, x, changes) then (st, Rejected(429))
      else if !x.disk.Writable? then (st.(values := Stored(c, st.values, changes, x.origin)), Raised)
      else (Apply(c, st, x, changes), Report(x, changes))
  }

  function EffectiveChanges(changes: Config, origin: string): Config {
    map p | p in changes :: Effective(changes[p], origin)
  }

  function Report(x: Call, changes: Config): Outcome {
    Applied(EffectiveChanges(changes, x.origin), changes.Keys != {RestartSchedule})
  }

  function Step(c: Codec, sensor: Sensor, st: State, x: Call): (r: (State, Outcome))
    requires Complete(st.values)
    ensures Complete(r.0.values)
  {
    if x.requestId != 0 && x.requestId <= st.lastRequestId then (st, Rejected(409))
    else if x.params == map[] && x.unknown == {} then (st, Rejected(400))
    else
      match Validate(sensor, st.values, x.params, x.unknown)
      case Refused => (st, Rejected(400))
      case Broken => (st, Raised)
      case Fine => Settle(c, st, x)
  }

  // ----- what stored values read back as -----

  /** Integer parameters carry true integers. */
  predicate WellTyped(params: Config) {
    forall p :: p in params && (IsPlainInt(p) || p.MotionSensitivity?) ==> params[p].IntV?
  }

  lemma NormalRequestStays(payload: RS.RawSchedule, origin: string)
    ensures var s := NormalRequest(payload, origin); RS.Normalise(RS.AsPayload(s)) == s
  {
    var o := OriginOf(origin);
    RS.NormaliseIsIdempotent(if payload.Dict? then payload.(source := Some(o)) else payload, o, "camera");
  }

  /** A well-typed valid value, stored, is read back as the value that was to take effect. */
  lemma StoredReadsBack(c: Codec, sensor: Sensor, p: Param, v: Value, origin: string)
    requires Faithful(c, v, origin) && ParamOk(sensor, p, v)
    requires IsPlainInt(p) || p.MotionSensitivity? ==> v.IntV?
    ensures ReadParam(c, p, Store(c, v, origin)) == Some(Effective(v, origin))
  {
    if v.IntV? {
      Text.IntRoundTrip(v.n);
    } else if v.BoolV? {
      assert Text.Lower("true") == "true" && Text.Lower("false") != "true";
    } else if v.ScheduleV? {
      NormalRequestStays(v.payload, origin);
    }
  }

  lemma NoWordIsANumber()
    ensures Text.ParseInt("true").None? && Text.ParseInt("false").None?
  {
    Text.StripKeeps("true", Text.IsSpace);
    Text.StripKeeps("false", Text.IsSpace);
  }

  // ----- an accepted request -----

  /** What validation and comparison established about the changes that get applied. */
  predicate Accepted(c: Codec, sensor: Sensor, values: Texts, params: Config, changes: Config)
    requires Complete(values)
  {
    && Readable(c, values) && AllParamsOk(sensor, params)
    && changes == Changes(GetConfig(c, values), params)
  }

  /** What a call would change, were it to get that far. */
  function Pending(c: Codec, st: State, x: Call): Config
    requires Complete(st.values)
  {
    if Readable(c, st.values) then Changes(GetConfig(c, st.values), x.params) else map[]
  }

  /** The call passes every gate with something to change, and so reaches the save. */
  predicate Storing(c: Codec, sensor: Sensor, st: State, x: Call)
    requires Complete(st.values)
  {
    && (x.requestId != 0 ==> x.requestId > st.lastRequestId)
    && x.params != map[] && Validate(sensor, st.values, x.params, x.unknown) == Fine
    && Readable(c, st.values) && Pending(c, st, x) != map[] && !TooSoon(st, x, Pending(c, st, x))
  }

  /** Storing is what leads to the save: applied when it succeeds, raised when not; nothing else changes anything. */
  lemma StepStores(c: Codec, sensor: Sensor, st: State, x: Call)
    requires Complete(st.values)
    ensures var r, changes := Step(c, sensor, st, x), Pending(c, st, x);
      && (!Storing(c, sensor, st, x) ==> r.0 == st && !r.1.Applied?)
      && (Storing(c, sensor, st, x) ==>
            r == if x.disk.Writable? then (Apply(c, st, x, changes), Report(x, changes))
                 else (st.(values := Stored(c, st.values, changes, x.origin)), Raised))
  {
  }

  /**
   A call that is not applied leaves every part of the state alone, with one exception: it reached
   the save, the file could not be written, and the texts to be stored differ from the old ones.
   Then the texts are replaced in memory, while the request id and the time of change are not noted.
   The texts of a well-typed call do differ, unless it changes the schedule alone.
   */
  lemma AllOrNothing(c: Codec, sensor: Sensor, st: State, x: Call)
    requires Complete(st.values)
    ensures var (st', o) := Step(c, sensor, st, x); var texts := Stored(c, st.values, Pending(c, st, x), x.origin);
      && (o.Applied? <==> Storing(c, sensor, st, x) && x.disk.Writable?)
      && (!o.Applied? ==>
            && (st' == st <==> !(Storing(c, sensor, st, x) && texts != st.values))
            && st' == st.(values := if Storing(c, sensor, st, x) then texts else st.values))
      && (Storing(c, sensor, st, x) && WellTyped(x.params) && AllFaithful(c, x.params, x.origin) ==>
            Pending(c, st, x).Keys != {RestartSchedule} ==> texts != st.values)
  {
    StepStores(c, sensor, st, x);
    if Storing(c, sensor, st, x) && WellTyped(x.params) && AllFaithful(c, x.params, x.origin)
       && Pending(c, st, x).Keys != {RestartSchedule} {
      StoringMeans(c, sensor, st, x);
      ChangeAltersTexts(c, sensor, st.values, x.params, Pending(c, st, x), x.origin);
    }
  }

  lemma KeyBesides<T>(keys: set<T>, k: T) returns (other: T)
    requires keys != {} && keys != {k}
    ensures other in keys && other != k
  {
    var some :| some in keys;
    assert keys <= {k} ==> some == k && keys == {k};
    other :| other in keys && other !in {k};
  }

  lemma ChangeAltersText(c: Codec, sensor: Sensor, p: Param, text: string, v: Value, origin: string)
    requires ParamOk(sensor, p, v) && Faithful(c, v, origin) && p != RestartSchedule
    requires IsPlainInt(p) || p.MotionSensitivity? ==> v.IntV?
    requires ReadParam(c, p, text).Some? && !PyEqual(ReadParam(c, p, text).value, v)
    ensures Store(c, v, origin) != text
  {
    StoredReadsBack(c, sensor, p, v, origin);
  }

  lemma ChangeAltersTexts(c: Codec, sensor: Sensor, values: Texts, params: Config, changes: Config, origin: string)
    requires Complete(values) && WellTyped(params) && AllFaithful(c, params, origin)
    requires Accepted(c, sensor, values, params, changes) && changes != map[] && changes.Keys != {RestartSchedule}
    ensures Stored(c, values, changes, origin) != values
  {
    var p := KeyBesides(changes.Keys, RestartSchedule);
    assert !PyEqual(GetConfig(c, values)[p], params[p]);
    ChangeAltersText(c, sensor, p, values[p], params[p], origin);
    assert Stored(c, values, changes, origin)[p] == Store(c, params[p], origin);
  }

  /** What reaching the save says about the changes. */
  lemma StoringMeans(c: Codec, sensor: Sensor, st: State, x: Call)
    requires Complete(st.values) && Storing(c, sensor, st, x)
    ensures Accepted(c, sensor, st.values, x.params, Pending(c, st, x)) && x.unknown == {}
    ensures Step(c, sensor, st, x).0.values == Stored(c, st.values, Pending(c, st, x), x.origin)
  {
    ValidatedParams(sensor, st.values, x.params, x.unknown);
    StepStores(c, sensor, st, x);
  }

  /** On well-typed requests Python's equality is equality. */
  lemma EqualMeansEqual(c: Codec, sensor: Sensor, p: Param, text: string, v: Value)
    requires ParamOk(sensor, p, v) && (IsPlainInt(p) || p.MotionSensitivity? ==> v.IntV?)
    requires ReadParam(c, p, text).Some? && PyEqual(ReadParam(c, p, text).value, v)
    ensures ReadParam(c, p, text).value == v
  {
  }

  /** `values'` holds the configuration in `values` overridden by `applied`. */
  predicate Overrides(c: Codec, values: Texts, values': Texts, applied: Config)
    requires Complete(values) && Complete(values')
  {
    && Readable(c, values) && Readable(c, values')
    && forall p: Param :: GetConfig(c, values')[p] == if p in applied then applied[p] else GetConfig(c, values)[p]
  }

  // ----- booleans in integer fields -----

  /** A boolean for an integer parameter, other than one Python finds equal to the value held. */
  predicate BooleanFor(c: Codec, values: Texts, params: Config, p: Param)
    requires Complete(values) && Readable(c, values)
  {
    p in params && params[p].BoolV? && !PyEqual(GetConfig(c, values)[p], params[p])
  }

  lemma TextOfValueReadable(c: Codec, sensor: Sensor, p: Param, v: Value, origin: string)
    requires ParamOk(sensor, p, v)
    ensures ReadParam(c, p, Store(c, v, origin)).None? <==> IsPlainInt(p) && v.BoolV?
  {
    NoWordIsANumber();
    if v.IntV? {
      Text.IntRoundTrip(v.n);
    }
  }

  /** A valid value, stored, is read back as the value that was to take effect, unless it is a boolean for an integer. */
  lemma ReadsBackUnlessBoolean(c: Codec, sensor: Sensor, p: Param, v: Value, origin: string)
    requires Faithful(c, v, origin) && ParamOk(sensor, p, v)
    ensures ReadParam(c, p, Store(c, v, origin)) == Some(Effective(v, origin)) <==>
      !((IsPlainInt(p) || p.MotionSensitivity?) && v.BoolV?)
  {
    if IsPlainInt(p) && v.BoolV? {
      TextOfValueReadable(c, sensor, p, v, origin);
    } else if !(p.MotionSensitivity? && v.BoolV?) {
      StoredReadsBack(c, sensor, p, v, origin);
    }
  }

  lemma ChangesReadable(c: Codec, sensor: Sensor, values: Texts, params: Config, changes: Config, origin: string)
    requires Complete(values) && Accepted(c, sensor, values, params, changes)
    ensures Complete(Stored(c, values, changes, origin))
    ensures Readable(c, Stored(c, values, changes, origin)) <==>
      forall p: Param :: IsPlainInt(p) ==> !BooleanFor(c, values, params, p)
  {
    var values' := Stored(c, values, changes, origin);
    forall p: Param
      ensures p in values'
      ensures ReadParam(c, p, values'[p]).None? <==> IsPlainInt(p) && BooleanFor(c, values, params, p)
    {
      if p in changes {
        TextOfValueReadable(c, sensor, p, params[p], origin);
      }
    }
  }

  /**
   No typing is assumed: when a call reaches the save, the configuration can be read afterwards if
   and only if no plain integer parameter was given as a boolean that differs from the value held.
   */
  lemma BooleanIntegersBreakReading(c: Codec, sensor: Sensor, st: State, x: Call)
    requires Complete(st.values)
    ensures Storing(c, sensor, st, x) ==>
      (Readable(c, Step(c, sensor, st, x).0.values) <==>
        forall p: Param :: IsPlainInt(p) ==> !BooleanFor(c, st.values, x.params, p))
  {
    if Storing(c, sensor, st, x) {
      StoringMeans(c, sensor, st, x);
      ChangesReadable(c, sensor, st.values, x.params, Pending(c, st, x), x.origin);
    }
  }

  /** No change gives an integer parameter as a boolean. */
  predicate NoBooleanChange(c: Codec, values: Texts, params: Config)
    requires Complete(values) && Readable(c, values)
  {
    forall p: Param :: IsPlainInt(p) || p.MotionSensitivity? ==> !BooleanFor(c, values, params, p)
  }

  lemma OverridesMeans(c: Codec, values: Texts, values': Texts, applied: Config)
    requires Complete(values) && Complete(values') && Readable(c, values)
    ensures Overrides(c, values, values', applied) <==>
      forall p: Param :: ReadParam(c, p, values'[p]) == Some(if p in applied then applied[p] else GetConfig(c, values)[p])
  {
  }

  lemma ParamOverridden(c: Codec, sensor: Sensor, values: Texts, params: Config, changes: Config, origin: string, p: Param)
    requires Complete(values) && AllFaithful(c, params, origin) && Accepted(c, sensor, values, params, changes)
    ensures Complete(Stored(c, values, changes, origin))
    ensures var applied := EffectiveChanges(changes, origin);
      ReadParam(c, p, Stored(c, values, changes, origin)[p]) ==
        Some(if p in applied then applied[p] else GetConfig(c, values)[p]) <==>
      !((IsPlainInt(p) || p.MotionSensitivity?) && BooleanFor(c, values, params, p))
  {
    if p in changes {
      ReadsBackUnlessBoolean(c, sensor, p, params[p], origin);
    } else {
      assert Stored(c, values, changes, origin)[p] == values[p];
    }
  }

  lemma ChangesOverride(c: Codec, sensor: Sensor, values: Texts, params: Config, changes: Config, origin: string)
    requires Complete(values) && AllFaithful(c, params, origin) && Accepted(c, sensor, values, params, changes)
    ensures Complete(Stored(c, values, changes, origin))
    ensures Overrides(c, values, Stored(c, values, changes, origin), EffectiveChanges(changes, origin)) <==>
      NoBooleanChange(c, values, params)
  {
    forall p: Param {
      ParamOverridden(c, sensor, values, params, changes, origin, p);
    }
    OverridesMeans(c, values, Stored(c, values, changes, origin), EffectiveChanges(changes, origin));
  }

  /**
   When a call reaches the save, the configuration becomes the old one overridden by the normalised
   changes if and only if no change gives an integer parameter, motion sensitivity included, as a
   boolean; and a requested parameter is left out of the changes exactly when it already had its value.
   */
  lemma AppliedOverridesConfig(c: Codec, sensor: Sensor, st: State, x: Call)
    requires Complete(st.values) && AllFaithful(c, x.params, x.origin)
    ensures Storing(c, sensor, st, x) ==>
      var st', applied := Step(c, sensor, st, x).0, EffectiveChanges(Pending(c, st, x), x.origin);
      && (Overrides(c, st.values, st'.values, applied) <==> NoBooleanChange(c, st.values, x.params))
      && (forall p :: p in applied <==> p in x.params && !PyEqual(GetConfig(c, st.values)[p], x.params[p]))
      && (forall p :: p in applied ==> applied[p] == Effective(x.params[p], x.origin))
      && (x.disk.Writable? ==> Step(c, sensor, st, x).1.changes == applied)
  {
    if Storing(c, sensor, st, x) {
      StoringMeans(c, sensor, st, x);
      StepStores(c, sensor, st, x);
      ChangesOverride(c, sensor, st.values, x.params, Pending(c, st, x), x.origin);
    }
  }

  /** Well-typed requests give no boolean for an integer, and what they leave out of the changes is what is held. */
  lemma WellTypedOverride(c: Codec, sensor: Sensor, st: State, x: Call)
    requires Complete(st.values) && AllFaithful(c, x.params, x.origin) && WellTyped(x.params)
    ensures Storing(c, sensor, st, x) ==>
      var st', applied := Step(c, sensor, st, x).0, EffectiveChanges(Pending(c, st, x), x.origin);
      && Overrides(c, st.values, st'.values, applied)
      && (forall p :: p in x.params && p !in applied ==> GetConfig(c, st.values)[p] == x.params[p])
  {
    if Storing(c, sensor, st, x) {
      AppliedOverridesConfig(c, sensor, st, x);
      StoringMeans(c, sensor, st, x);
      var applied := EffectiveChanges(Pending(c, st, x), x.origin);
      forall p | p in x.params && p !in applied
        ensures GetConfig(c, st.values)[p] == x.params[p]
      {
        EqualMeansEqual(c, sensor, p, st.values[p], x.params[p]);
      }
    }
  }

  /** Once the configuration cannot be read, no call through the handler repairs it, nor changes anything else. */
  lemma {:induction false} UnreadableForGood(c: Codec, sensor: Sensor, st: State, xs: seq<Call>)
    requires Complete(st.values) && !Readable(c, st.values)
    ensures Final(c, sensor, st, xs) == st
  {
    if |xs| > 0 {
      UnreadableForGood(c, sensor, st, xs[..|xs| - 1]);
      StepStores(c, sensor, st, xs[|xs| - 1]);
    }
  }

  // ----- after a save that failed -----

  /** The same request once more. */
  predicate Repeats(x: Call, y: Call) {
    y.params == x.params && y.unknown == x.unknown && y.requestId == x.requestId && y.origin == x.origin
  }

  lemma WantedAgain(c: Codec, values: Texts, params: Config, changes: Config, origin: string, p: Param)
    requires Complete(values) && IsPlainInt(p) && changes.Keys <= params.Keys
    requires Readable(c, Stored(c, values, changes, origin))
    ensures var values' := Stored(c, values, changes, origin);
      Wanted(values', params, p) == Wanted(values, params, p) && Text.ParseInt(values'[p]).Some?
  {
    var values' := Stored(c, values, changes, origin);
    assert ReadParam(c, p, values'[p]).Some?;
    assert p !in params ==> values'[p] == values[p];
  }

  lemma ValidAgain(c: Codec, sensor: Sensor, values: Texts, params: Config, changes: Config, origin: string)
    requires Complete(values) && changes.Keys <= params.Keys
    requires Validate(sensor, values, params, {}) == Fine && Readable(c, Stored(c, values, changes, origin))
    ensures Validate(sensor, Stored(c, values, changes, origin), params, {}) == Fine
  {
    WantedAgain(c, values, params, changes, origin, Width);
    WantedAgain(c, values, params, changes, origin, Height);
    WantedAgain(c, values, params, changes, origin, Fps);
  }

  /** What was stored by a well-typed call takes effect as asked, unless a schedule was normalised on the way. */
  predicate TakenLiterally(c: Codec, st: State, x: Call)
    requires Complete(st.values)
  {
    forall p :: p in Pending(c, st, x) ==> Effective(x.params[p], x.origin) == x.params[p]
  }

  lemma NothingLeft(c: Codec, values: Texts, values': Texts, params: Config, origin: string)
    requires Complete(values) && Complete(values') && Readable(c, values)
    requires Overrides(c, values, values', EffectiveChanges(Changes(GetConfig(c, values), params), origin))
    ensures Changes(GetConfig(c, values'), params) == map[] <==>
      forall p :: p in Changes(GetConfig(c, values), params) ==> PyEqual(Effective(params[p], origin), params[p])
  {
    var before, after := Changes(GetConfig(c, values), params), Changes(GetConfig(c, values'), params);
    forall p | p in params
      ensures p in after <==> p in before && !PyEqual(Effective(params[p], origin), params[p])
    {
      assert p in before <==> p in EffectiveChanges(before, origin);
    }
    if after != map[] {
      var p :| p in after;
    }
  }

  lemma EffectiveIsEqual(v: Value, origin: string)
    ensures PyEqual(Effective(v, origin), v) <==> Effective(v, origin) == v
  {
  }

  lemma ChangesAreLiteral(c: Codec, st: State, x: Call)
    requires Complete(st.values) && Readable(c, st.values)
    ensures TakenLiterally(c, st, x) <==>
      forall p :: p in Changes(GetConfig(c, st.values), x.params) ==> PyEqual(Effective(x.params[p], x.origin), x.params[p])
  {
    forall p | p in x.params {
      EffectiveIsEqual(x.params[p], x.origin);
    }
  }

  lemma SettledUnchanged(c: Codec, st: State, x: Call)
    requires Complete(st.values) && Readable(c, st.values)
    ensures Settle(c, st, x) == (st, Unchanged) <==> Changes(GetConfig(c, st.values), x.params) == map[]
  {
  }

  lemma RepeatSettles(c: Codec, sensor: Sensor, st: State, x: Call, y: Call)
    requires Complete(st.values) && AllFaithful(c, x.params, x.origin) && WellTyped(x.params)
    requires Storing(c, sensor, st, x) && !x.disk.Writable? && Repeats(x, y)
    ensures var st' := Step(c, sensor, st, x).0;
      && Overrides(c, st.values, st'.values, EffectiveChanges(Pending(c, st, x), x.origin))
      && Step(c, sensor, st', y) == Settle(c, st', y)
  {
    WellTypedOverride(c, sensor, st, x);
    StoringMeans(c, sensor, st, x);
    StepStores(c, sensor, st, x);
    ValidAgain(c, sensor, st.values, x.params, Pending(c, st, x), x.origin);
  }

  /**
   A well-typed call whose save failed, sent again: it is answered as unchanged, success though the
   file was never written, if and only if it did not change the schedule to something that had to
   be normalised.
   */
  lemma FailedSaveIsForgotten(c: Codec, sensor: Sensor, st: State, x: Call, y: Call)
    requires Complete(st.values) && WellTyped(x.params) && !x.disk.Writable? && Repeats(x, y)
    ensures AllFaithful(c, x.params, x.origin) && Storing(c, sensor, st, x) ==>
      var st' := Step(c, sensor, st, x).0;
      (Step(c, sensor, st', y) == (st', Unchanged) <==> TakenLiterally(c, st, x))
  {
    if AllFaithful(c, x.params, x.origin) && Storing(c, sensor, st, x) {
      RepeatSettles(c, sensor, st, x, y);
      var st' := Step(c, sensor, st, x).0;
      NothingLeft(c, st.values, st'.values, x.params, x.origin);
      ChangesAreLiteral(c, st, x);
      SettledUnchanged(c, st', y);
    }
  }

  /** A frame rate of one frame a second would fit the sensor in its stored mode. */
  predicate OneFrameFits(sensor: Sensor, values: Texts)
    requires Complete(values)
  {
    && Fits(sensor, values) && MaxFpsOverall(sensor.modes) >= 1
    && MaxFpsFor(sensor.modes, Text.ParseInt(values[Width]).value, Text.ParseInt(values[Height]).value).value >= 1.0
  }

  lemma TrueAsFpsIsValid(sensor: Sensor, values: Texts, params: Config)
    requires Complete(values) && OneFrameFits(sensor, values) && params == map[Fps := BoolV(true)]
    ensures Validate(sensor, values, params, {}) == Fine && AllParamsOk(sensor, params)
  {
  }

  lemma TrueIsAChange(current: Config, params: Config)
    requires (forall p: Param :: p in current) && params == map[Fps := BoolV(true)]
    requires current[Fps].IntV? && current[Fps].n != 1
    ensures Fps in Changes(current, params)
  {
  }

  lemma TrueAsFpsIsPending(c: Codec, st: State, x: Call)
    requires Complete(st.values) && x.params == map[Fps := BoolV(true)]
    ensures Readable(c, st.values) && Text.ParseInt(st.values[Fps]) != Some(1) ==>
      Fps in Pending(c, st, x) && BooleanFor(c, st.values, x.params, Fps)
  {
    if Readable(c, st.values) && Text.ParseInt(st.values[Fps]) != Some(1) {
      assert IsPlainInt(Fps) && ReadParam(c, Fps, st.values[Fps]).Some?;
      TrueIsAChange(GetConfig(c, st.values), x.params);
    }
  }

  /** `fps = True` passes validation, and leaves a configuration that cannot be read, now and after any later calls. */
  lemma TrueAsFps(c: Codec, sensor: Sensor, st: State, x: Call, xs: seq<Call>)
    requires Complete(st.values) && x.params == map[Fps := BoolV(true)] && x.unknown == {} && x.requestId == 0
    ensures Readable(c, st.values) && OneFrameFits(sensor, st.values) && st.lastChangeTime == 0.0
            && Text.ParseInt(st.values[Fps]) != Some(1) ==>
      Storing(c, sensor, st, x) && !Readable(c, Final(c, sensor, Step(c, sensor, st, x).0, xs).values)
  {
    if Readable(c, st.values) && OneFrameFits(sensor, st.values) && st.lastChangeTime == 0.0
       && Text.ParseInt(st.values[Fps]) != Some(1) {
      TrueAsFpsIsValid(sensor, st.values, x.params);
      TrueAsFpsIsPending(c, st, x);
      assert x.params != map[];
      BooleanIntegersBreakReading(c, sensor, st, x);
      UnreadableForGood(c, sensor, Step(c, sensor, st, x).0, xs);
    }
  }

  // ----- the mode stays valid -----

  predicate FitsSize(sensor: Sensor, w: Option<int>, h: Option<int>, fps: Option<int>) {
    && w.Some? && h.Some? && fps.Some?
    && IsMode(sensor.modes, w.value, h.value)
    && fps.value as real <= MaxFpsFor(sensor.modes, w.value, h.value).value
  }

  /** The stored size is a sensor mode whose frame rate covers the stored one. */
  predicate Fits(sensor: Sensor, values: Texts)
    requires Complete(values)
  {
    FitsSize(sensor, Text.ParseInt(values[Width]), Text.ParseInt(values[Height]), Text.ParseInt(values[Fps]))
  }

  /** Validation makes the combination of requested and stored values fit. */
  lemma ValidatedFits(sensor: Sensor, values: Texts, params: Config)
    requires Complete(values) && Fits(sensor, values) && Validate(sensor, values, params, {}) == Fine
    ensures FitsSize(sensor, Wanted(values, params, Width), Wanted(values, params, Height), Wanted(values, params, Fps))
  {
    if Width in params { assert ParamOk(sensor, Width, params[Width]); }
    if Height in params { assert ParamOk(sensor, Height, params[Height]); }
    if Fps in params { assert ParamOk(sensor, Fps, params[Fps]); }
  }

  lemma WantedIsStored(c: Codec, sensor: Sensor, values: Texts, params: Config, changes: Config, origin: string, p: Param)
    requires Complete(values) && Accepted(c, sensor, values, params, changes)
    requires IsPlainInt(p) && (p in params ==> params[p].IntV?)
    ensures Text.ParseInt(Stored(c, values, changes, origin)[p]) == Wanted(values, params, p)
  {
    if p in changes {
      Text.IntRoundTrip(params[p].n);
    } else if p in params {
      EqualMeansEqual(c, sensor, p, values[p], params[p]);
    }
  }

  lemma ChangesKeepMode(c: Codec, sensor: Sensor, values: Texts, params: Config, changes: Config, origin: string)
    requires Complete(values) && WellTyped(params) && Fits(sensor, values)
    ensures Accepted(c, sensor, values, params, changes) && Validate(sensor, values, params, {}) == Fine ==>
      Fits(sensor, Stored(c, values, changes, origin))
  {
    if Accepted(c, sensor, values, params, changes) && Validate(sensor, values, params, {}) == Fine {
      WantedIsStored(c, sensor, values, params, changes, origin, Width);
      WantedIsStored(c, sensor, values, params, changes, origin, Height);
      WantedIsStored(c, sensor, values, params, changes, origin, Fps);
      ValidatedFits(sensor, values, params);
    }
  }

  lemma StepKeepsMode(c: Codec, sensor: Sensor, st: State, x: Call)
    requires Complete(st.values) && WellTyped(x.params) && Fits(sensor, st.values)
    ensures Fits(sensor, Step(c, sensor, st, x).0.values)
  {
    StepStores(c, sensor, st, x);
    if Storing(c, sensor, st, x) {
      StoringMeans(c, sensor, st, x);
      ChangesKeepMode(c, sensor, st.values, x.params, Pending(c, st, x), x.origin);
    }
  }

  // ----- runs -----

  function Final(c: Codec, sensor: Sensor, st: State, xs: seq<Call>): (r: State)
    requires Complete(st.values)
    ensures Complete(r.values)
  {
    if |xs| == 0 then st else Step(c, sensor, Final(c, sensor, st, xs[..|xs| - 1]), xs[|xs| - 1]).0
  }

  /** The non-zero request ids of the accepted calls, in order. */
  function AppliedIds(c: Codec, sensor: Sensor, st: State, xs: seq<Call>): seq<int>
    requires Complete(st.values)
  {
    if |xs| == 0 then []
    else
      var before, x := xs[..|xs| - 1], xs[|xs| - 1];
      AppliedIds(c, sensor, st, before) +
      (if Step(c, sensor, Final(c, sensor, st, before), x).1.Applied? && x.requestId != 0 then [x.requestId] else [])
  }

  /** Over any run of well-typed calls from a valid mode the camera stays in a valid mode. */
  lemma {:induction false} ModeStaysValid(c: Codec, sensor: Sensor, st: State, xs: seq<Call>)
    requires Complete(st.values) && Fits(sensor, st.values) && forall i :: 0 <= i < |xs| ==> WellTyped(xs[i].params)
    ensures Fits(sensor, Final(c, sensor, st, xs).values)
  {
    if |xs| > 0 {
      ModeStaysValid(c, sensor, st, xs[..|xs| - 1]);
      StepKeepsMode(c, sensor, Final(c, sensor, st, xs[..|xs| - 1]), xs[|xs| - 1]);
    }
  }

  lemma StepKeepsId(c: Codec, sensor: Sensor, st: State, x: Call)
    requires Complete(st.values)
    ensures var (st', o) := Step(c, sensor, st, x);
      && st'.lastRequestId == (if o.Applied? && x.requestId != 0 then x.requestId else st.lastRequestId)
      && (o.Applied? && x.requestId != 0 ==> x.requestId > st.lastRequestId)
  {
    StepStores(c, sensor, st, x);
  }

  predicate Increasing(ids: seq<int>, low: int, high: int) {
    && low <= high
    && (forall i :: 0 <= i < |ids| ==> low < ids[i] <= high)
    && (forall i, j :: 0 <= i < j < |ids| ==> ids[i] < ids[j])
  }

  lemma IncreasingGrows(ids: seq<int>, low: int, high: int, id: int)
    requires Increasing(ids, low, high) && high < id
    ensures Increasing(ids + [id], low, id)
  {
  }

  /** Over any run, applied non-zero request ids strictly increase: no request is applied twice. */
  lemma {:induction false} AppliedIdsIncrease(c: Codec, sensor: Sensor, st: State, xs: seq<Call>)
    requires Complete(st.values)
    ensures Increasing(AppliedIds(c, sensor, st, xs), st.lastRequestId, Final(c, sensor, st, xs).lastRequestId)
  {
    if |xs| > 0 {
      var before, x := xs[..|xs| - 1], xs[|xs| - 1];
      AppliedIdsIncrease(c, sensor, st, before);
      var mid, ids := Final(c, sensor, st, before), AppliedIds(c, sensor, st, before);
      StepKeepsId(c, sensor, mid, x);
      if Step(c, sensor, mid, x).1.Applied? && x.requestId != 0 {
        IncreasingGrows(ids, st.lastRequestId, mid.lastRequestId, x.requestId);
      } else {
        assert ids + [] == ids;
      }
    }
  }

  lemma ValidatedParams(sensor: Sensor, values: Texts, params: Config, unknown: set<string>)
    requires Complete(values) && Validate(sensor, values, params, unknown) == Fine
    ensures unknown == {} && AllParamsOk(sensor, params)
  {
  }

  lemma NoChange(current: Config, params: Config, p: Param)
    requires (forall q: Param :: q in current) && Changes(current, params) == map[] && p in params
    ensures PyEqual(current[p], params[p])
  {
    assert p !in Changes(current, params);
  }

  /** Only a request that passed the replay gate and validation is settled. */
  lemma StepSettles(c: Codec, sensor: Sensor, st: State, x: Call)
    requires Complete(st.values)
    ensures var r := Step(c, sensor, st, x);
      || r.1.Rejected? || r.1.Raised?
      || (r == Settle(c, st, x) && Validate(sensor, st.values, x.params, x.unknown) == Fine)
  {
  }

  lemma UnchangedIsSettled(c: Codec, sensor: Sensor, st: State, x: Call)
    requires Complete(st.values) && Step(c, sensor, st, x).1 == Unchanged
    ensures Validate(sensor, st.values, x.params, x.unknown) == Fine
    ensures Readable(c, st.values) && Changes(GetConfig(c, st.values), x.params) == map[]
  {
    StepSettles(c, sensor, st, x);
  }

  /** A well-typed request reported as unchanged asked for what was already there. */
  lemma UnchangedMeansEqual(c: Codec, sensor: Sensor, st: State, x: Call, p: Param)
    requires Complete(st.values) && WellTyped(x.params) && p in x.params
    ensures Step(c, sensor, st, x).1 == Unchanged ==>
      Readable(c, st.values) && GetConfig(c, st.values)[p] == x.params[p]
  {
    if Step(c, sensor, st, x).1 == Unchanged {
      UnchangedIsSettled(c, sensor, st, x);
      ValidatedParams(sensor, st.values, x.params, x.unknown);
      NoChange(GetConfig(c, st.values), x.params, p);
      EqualMeansEqual(c, sensor, p, st.values[p], x.params[p]);
    }
  }

  // ----- surviving the configuration file -----

  /** The JSON library writes one line that starts and ends with neither blank nor quote. */
  ghost predicate Tidy(c: Codec) {
    && (forall x :: ConfigFile.Plain(c.printImage(x)) && ConfigFile.NoBreak(c.printImage(x)))
    && (forall s :: ConfigFile.Plain(c.printSchedule(s)) && ConfigFile.NoBreak(c.printSchedule(s)))
  }

  lemma PrintedIntIsPlain(n: int)
    ensures ConfigFile.Plain(Text.PrintInt(n)) && ConfigFile.NoBreak(Text.PrintInt(n))
  {
    var m := if n < 0 then -n else n;
    var t, s := Text.PrintNat(m), Text.PrintInt(n);
    assert forall i :: 0 <= i < |t| ==> Text.IsDigit(t[i]);
    assert forall i :: 0 <= i < |s| ==> s[i] == '-' || Text.IsDigit(s[i]) by {
      assert n < 0 ==> s == "-" + t;
    }
  }

  lemma StoredIsPlain(c: Codec, sensor: Sensor, p: Param, v: Value, origin: string)
    requires Tidy(c) && ParamOk(sensor, p, v)
    ensures ConfigFile.Plain(Store(c, v, origin)) && ConfigFile.NoBreak(Store(c, v, origin))
  {
    if v.IntV? {
      PrintedIntIsPlain(v.n);
    }
  }

  /** What the handler stores for a valid value is not altered by saving and loading the file. */
  lemma StoredSurvivesTheFile(c: Codec, sensor: Sensor, p: Param, v: Value, origin: string)
    requires Tidy(c) && ParamOk(sensor, p, v)
    ensures ConfigFile.NoBreak(Store(c, v, origin)) && ConfigFile.Cleaned(Store(c, v, origin)) == Store(c, v, origin)
  {
    StoredIsPlain(c, sensor, p, v, origin);
    ConfigFile.CleanedKeepsPlain(Store(c, v, origin));
  }
}
