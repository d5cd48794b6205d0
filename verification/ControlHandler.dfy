/**
 The control handler with its mutable fields, writing through the configuration manager, and what
 a run of requests leaves for the next start of the process.
 */
module Handler {
  import opened Prelude
  import opened Control
  import CF = ConfigFile

  /** The key under which a parameter is stored. */
  function KeyName(p: Param): string {
    match p
    case Width => "WIDTH"
    case Height => "HEIGHT"
    case Fps => "FPS"
    case Bitrate => "BITRATE"
    case H264Profile => "H264_PROFILE"
    case KeyframeInterval => "KEYFRAME_INTERVAL"
    case Rotation => "ROTATION"
    case HFlip => "HFLIP"
    case VFlip => "VFLIP"
    case MotionSensitivity => "MOTION_SENSITIVITY"
    case MotionDetection => "MOTION_DETECTION"
    case ImageQuality => "IMAGE_QUALITY"
    case RestartSchedule => "RESTART_SCHEDULE"
  }

  lemma KeyNamesDiffer(p: Param, q: Param)
    ensures KeyName(p) == KeyName(q) <==> p == q
  {
    var a, b := KeyName(p), KeyName(q);
    assert p != q ==> |a| != |b| || a[0] != b[0];
  }

  function TextsOf(values: CF.Values): Texts {
    map p: Param | KeyName(p) in values :: values[KeyName(p)]
  }

  /** The manager knows every parameter's key. */
  predicate HasKeys(keys: seq<string>) {
    forall p: Param :: KeyName(p) in keys
  }

  /** Keys that belong to no parameter are as before. */
  ghost predicate SameElsewhere(values: CF.Values, values': CF.Values) {
    && values'.Keys == values.Keys
    && forall k :: k in values && (forall p: Param :: k != KeyName(p)) ==> values'[k] == values[k]
  }

  lemma OverwriteOne(values: CF.Values, p: Param, text: string)
    requires KeyName(p) in values
    ensures TextsOf(values[KeyName(p) := text]) == TextsOf(values)[p := text]
    ensures SameElsewhere(values, values[KeyName(p) := text])
  {
    forall q: Param {
      KeyNamesDiffer(p, q);
    }
  }

  /** The updates amount to storing `texts`. */
  ghost predicate Amounts(keys: seq<string>, values: CF.Values, updates: seq<(string, string)>, texts: Texts) {
    var values' := CF.Overwritten(keys, values, updates);
    TextsOf(values') == TextsOf(values) + texts && SameElsewhere(values, values')
  }

  lemma OneMoreUpdate(keys: seq<string>, values: CF.Values, updates: seq<(string, string)>, texts: Texts, p: Param, text: string)
    requires KeyName(p) in keys && KeyName(p) in values && Amounts(keys, values, updates, texts)
    ensures Amounts(keys, values, updates + [(KeyName(p), text)], texts[p := text])
  {
    var before := CF.Overwritten(keys, values, updates);
    CF.OverwrittenAppend(keys, values, updates, KeyName(p), text);
    OverwriteOne(before, p, text);
    assert TextsOf(values) + texts[p := text] == (TextsOf(values) + texts)[p := text];
  }

  // ----- the handler -----

  /** Everything a request can change: the manager's values and file, and the handler's own fields. */
  datatype Box = Box(values: CF.Values, file: string, lastRequestId: int, lastChangeTime: real)

  function StateOf(b: Box): State {
    State(TextsOf(b.values), b.lastRequestId, b.lastChangeTime)
  }

  predicate Stocked(b: Box) {
    forall p: Param :: KeyName(p) in b.values
  }

  lemma StockedIsComplete(b: Box)
    requires Stocked(b)
    ensures Complete(StateOf(b).values)
  {
  }

  /** The request gets as far as the save. */
  predicate Stores(c: Codec, sensor: Sensor, b: Box, x: Call) {
    Complete(StateOf(b).values) && Storing(c, sensor, StateOf(b), x)
  }

  /** `b'` is what request `x` makes of `b`: the step of the rules, other keys alone, and the file rewritten by a save. */
  ghost predicate Follows(c: Codec, sensor: Sensor, keys: seq<string>, b: Box, x: Call, b': Box) {
    && Complete(StateOf(b).values)
    && StateOf(b') == Step(c, sensor, StateOf(b), x).0
    && SameElsewhere(b.values, b'.values)
    && (forall k :: k in keys ==> k in b'.values)
    && b'.file == if Stores(c, sensor, b, x) then CF.AfterWrite(x.disk, b.file, CF.Printed(keys, b'.values))
                  else b.file
  }

  class ControlHandler {
    const codec: Codec
    const sensor: Sensor
    const config: CF.ConfigManager
    var lastRequestId: int
    var lastChangeTime: real

    ghost predicate Valid()
      reads this, config
    {
      config.Valid() && HasKeys(config.keys)
    }

    ghost function View(): Box
      reads this, config
    {
      Box(config.values, config.file, lastRequestId, lastChangeTime)
    }

    constructor (codec: Codec, sensor: Sensor, config: CF.ConfigManager)
      requires config.Valid() && HasKeys(config.keys)
      ensures Valid() && this.codec == codec && this.sensor == sensor && this.config == config
      ensures View() == Box(config.values, config.file, 0, 0.0)
    {
      this.codec, this.sensor, this.config, lastRequestId, lastChangeTime := codec, sensor, config, 0, 0.0;
    }

    method SetConfig(x: Call) returns (outcome: Outcome)
      requires Valid()
      modifies this, config
      ensures Valid()
      ensures Follows(codec, sensor, config.keys, old(View()), x, View())
      ensures Complete(StateOf(old(View())).values) && outcome == Step(codec, sensor, StateOf(old(View())), x).1
    {
      StockedIsComplete(View());
      StepStores(codec, sensor, StateOf(View()), x);
      if x.requestId != 0 && x.requestId <= lastRequestId { return Rejected(409); }
      if x.params == map[] && x.unknown == {} { return Rejected(400); }
      var values := TextsOf(config.values);
      var verdict := Validate(sensor, values, x.params, x.unknown);
      if verdict.Refused? { return Rejected(400); }
      if verdict.Broken? { return Raised; }
      if !Readable(codec, values) { return Raised; }
      var changes := CollectChanges(GetConfig(codec, values), x.params);
      if changes == map[] { return Unchanged; }
      if TooSoon(State(values, lastRequestId, lastChangeTime), x, changes) { return Rejected(429); }
      var raised := StoreChanges(x, changes);
      outcome := if raised then Raised else Report(x, changes);
    }

    /** Hand the changed texts to the manager; only when it has saved them is the request remembered. */
    method StoreChanges(x: Call, changes: Config) returns (raised: bool)
      requires Valid()
      modifies this, config
      ensures Valid() && raised == !x.disk.Writable?
      ensures TextsOf(config.values) == Stored(codec, TextsOf(old(config.values)), changes, x.origin)
      ensures SameElsewhere(old(config.values), config.values)
      ensures config.file == CF.AfterWrite(x.disk, old(config.file), CF.Printed(config.keys, config.values))
      ensures lastRequestId == if !raised && x.requestId != 0 then x.requestId else old(lastRequestId)
      ensures lastChangeTime == if raised then old(lastChangeTime) else x.done
    {
      var updates := UpdatesFor(x, changes);
      raised := config.Update(updates, x.disk);
      if raised { return; }
      if x.requestId != 0 { lastRequestId := x.requestId; }
      lastChangeTime := x.done;
    }

    /** The loop that turns changes into keys and texts. */
    method UpdatesFor(x: Call, changes: Config) returns (updates: seq<(string, string)>)
      requires Valid()
      ensures Amounts(config.keys, config.values, updates, NewTexts(codec, changes, x.origin))
    {
      updates := [];
      var todo := changes.Keys;
      ghost var texts := NewTexts(codec, changes, x.origin);
      while todo != {}
        invariant todo <= changes.Keys
        invariant Amounts(config.keys, config.values, updates, texts - todo)
        decreases todo
      {
        var p :| p in todo;
        var text := Store(codec, changes[p], x.origin);
        OneMoreUpdate(config.keys, config.values, updates, texts - todo, p, text);
        assert (texts - todo)[p := text] == texts - (todo - {p});
        updates := updates + [(KeyName(p), text)];
        todo := todo - {p};
      }
      assert texts - {} == texts;
    }
  }

  /** The loop that gathers what differs, parameter by parameter. */
  method CollectChanges(current: Config, params: Config) returns (changes: Config)
    requires forall p: Param :: p in current
    ensures changes == Changes(current, params)
  {
    changes := map[];
    var todo := params.Keys;
    while todo != {}
      invariant todo <= params.Keys
      invariant changes == map p | p in params && p !in todo && !PyEqual(current[p], params[p]) :: params[p]
      decreases todo
    {
      var key :| key in todo;
      if !PyEqual(current[key], params[key]) {
        changes := changes[key := params[key]];
      }
      todo := todo - {key};
    }
  }

  // ----- what a run leaves for the next start -----

  /** The boxes before the first request, between requests, and after the last. */
  ghost predicate IsRun(c: Codec, sensor: Sensor, keys: seq<string>, bs: seq<Box>, xs: seq<Call>) {
    |bs| == |xs| + 1 && forall i :: 0 <= i < |xs| ==> Follows(c, sensor, keys, bs[i], xs[i], bs[i + 1])
  }

  /** The last request that reached the save got it written. */
  ghost predicate LastSaveWritten(c: Codec, sensor: Sensor, bs: seq<Box>, xs: seq<Call>)
    requires |bs| == |xs| + 1
  {
    |xs| > 0 ==>
      var n := |xs| - 1;
      if Stores(c, sensor, bs[n], xs[n]) then xs[n].disk.Writable?
      else LastSaveWritten(c, sensor, bs[..n + 1], xs[..n])
  }

  predicate PlainText(text: string) {
    CF.Plain(text) && CF.NoBreak(text)
  }

  /** Every setting is a text that the file does not alter. */
  predicate PlainTexts(values: Texts) {
    forall p: Param :: p in values && PlainText(values[p])
  }

  lemma OverriddenKeepsPlain(values: Texts, texts: Texts)
    requires Complete(values) && PlainTexts(values) && forall p :: p in texts ==> PlainText(texts[p])
    ensures PlainTexts(values + texts)
  {
  }

  lemma StoredKeepsPlain(c: Codec, sensor: Sensor, values: Texts, params: Config, changes: Config, origin: string)
    requires Tidy(c) && Complete(values) && PlainTexts(values) && Accepted(c, sensor, values, params, changes)
    ensures PlainTexts(Stored(c, values, changes, origin))
  {
    var texts := NewTexts(c, changes, origin);
    forall p | p in texts
      ensures PlainText(texts[p])
    {
      StoredIsPlain(c, sensor, p, params[p], origin);
    }
    OverriddenKeepsPlain(values, texts);
  }

  lemma StepKeepsPlain(c: Codec, sensor: Sensor, st: State, x: Call)
    requires Tidy(c) && Complete(st.values) && PlainTexts(st.values)
    ensures PlainTexts(Step(c, sensor, st, x).0.values)
  {
    StepStores(c, sensor, st, x);
    if Storing(c, sensor, st, x) {
      StoringMeans(c, sensor, st, x);
      StoredKeepsPlain(c, sensor, st.values, x.params, Pending(c, st, x), x.origin);
    }
  }

  /** Every key can be printed on a line of its own. */
  predicate AllSaveable(keys: seq<string>, values: CF.Values) {
    HasKeys(keys) && CF.Saveable(keys, values)
  }

  lemma FollowsKeepsSaveable(c: Codec, sensor: Sensor, keys: seq<string>, b: Box, x: Call, b': Box)
    requires Follows(c, sensor, keys, b, x, b') && Tidy(c) && PlainTexts(StateOf(b).values)
    requires AllSaveable(keys, b.values)
    ensures PlainTexts(StateOf(b').values) && AllSaveable(keys, b'.values)
  {
    StepKeepsPlain(c, sensor, StateOf(b), x);
    forall k | k in keys
      ensures CF.NoBreak(b'.values[k])
    {
      if p: Param :| k == KeyName(p) {
        assert b'.values[k] == TextsOf(b'.values)[p];
      } else {
        assert b'.values[k] == b.values[k];
      }
    }
  }

  /** A box whose file holds what is in memory. */
  ghost predicate InSync(keys: seq<string>, b: Box) {
    && (forall k :: k in keys ==> k in b.values)
    && b.file == CF.Printed(keys, b.values)
  }

  lemma {:induction false} PrintedAlike(keys: seq<string>, values: CF.Values, values': CF.Values)
    requires forall k :: k in keys ==> k in values && k in values' && values[k] == values'[k]
    ensures CF.Printed(keys, values) == CF.Printed(keys, values')
  {
    if |keys| > 0 {
      PrintedAlike(keys[1..], values, values');
    }
  }

  lemma IdleKeepsFile(c: Codec, sensor: Sensor, keys: seq<string>, b: Box, x: Call, b': Box)
    requires Follows(c, sensor, keys, b, x, b') && !Stores(c, sensor, b, x)
    requires InSync(keys, b) && HasKeys(keys)
    ensures InSync(keys, b')
  {
    StepStores(c, sensor, StateOf(b), x);
    forall k | k in keys
      ensures b.values[k] == b'.values[k]
    {
      if p: Param :| k == KeyName(p) {
        assert TextsOf(b'.values)[p] == TextsOf(b.values)[p];
      }
    }
    PrintedAlike(keys, b.values, b'.values);
  }

  /** Over any run, texts stay plain, and the file is in step with memory while the last save was written. */
  lemma {:induction false} RunKeepsFile(c: Codec, sensor: Sensor, keys: seq<string>, bs: seq<Box>, xs: seq<Call>)
    requires IsRun(c, sensor, keys, bs, xs) && Tidy(c)
    requires AllSaveable(keys, bs[0].values) && PlainTexts(StateOf(bs[0]).values) && InSync(keys, bs[0])
    ensures AllSaveable(keys, bs[|xs|].values) && PlainTexts(StateOf(bs[|xs|]).values)
    ensures LastSaveWritten(c, sensor, bs, xs) ==> InSync(keys, bs[|xs|])
    ensures Complete(StateOf(bs[0]).values) && StateOf(bs[|xs|]) == Final(c, sensor, StateOf(bs[0]), xs)
  {
    if |xs| > 0 {
      var n := |xs| - 1;
      assert Follows(c, sensor, keys, bs[n], xs[n], bs[n + 1]);
      RunKeepsFile(c, sensor, keys, bs[..n + 1], xs[..n]);
      FollowsKeepsSaveable(c, sensor, keys, bs[n], xs[n], bs[n + 1]);
      if !Stores(c, sensor, bs[n], xs[n]) && LastSaveWritten(c, sensor, bs, xs) {
        IdleKeepsFile(c, sensor, keys, bs[n], xs[n], bs[n + 1]);
      }
    }
  }

  /** What a starting process, holding `base`, reads from a file. */
  function Reloaded(keys: seq<string>, base: CF.Values, file: string): CF.Values {
    CF.AbsorbAll(keys, base, CF.Lines(file))
  }

  lemma ReloadRestores(keys: seq<string>, b: Box, base: CF.Values)
    requires AllSaveable(keys, b.values) && PlainTexts(StateOf(b).values) && InSync(keys, b)
    ensures TextsOf(Reloaded(keys, base, b.file)) == TextsOf(b.values)
  {
    forall p: Param
      ensures KeyName(p) in Reloaded(keys, base, b.file)
      ensures Reloaded(keys, base, b.file)[KeyName(p)] == b.values[KeyName(p)]
    {
      CF.SaveLoadRoundTrip(keys, b.values, base, KeyName(p));
      assert PlainText(StateOf(b).values[p]);
    }
  }

  /**
   Over any run of requests from settings the file does not alter, some saves failing: as long as
   the last save was written, a process started again reads exactly the settings the run ended with.
   */
  lemma RunSurvivesRestart(c: Codec, sensor: Sensor, keys: seq<string>, bs: seq<Box>, xs: seq<Call>, base: CF.Values)
    requires IsRun(c, sensor, keys, bs, xs) && Tidy(c)
    requires AllSaveable(keys, bs[0].values) && PlainTexts(StateOf(bs[0]).values) && InSync(keys, bs[0])
    ensures Complete(StateOf(bs[0]).values)
    ensures LastSaveWritten(c, sensor, bs, xs) ==>
      TextsOf(Reloaded(keys, base, bs[|xs|].file)) == Final(c, sensor, StateOf(bs[0]), xs).values
  {
    RunKeepsFile(c, sensor, keys, bs, xs);
    if LastSaveWritten(c, sensor, bs, xs) {
      ReloadRestores(keys, bs[|xs|], base);
    }
  }
}
